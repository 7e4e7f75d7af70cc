/**
 kernel/bio.c: the buffer cache.  Every method is one critical section of the source, under
 bcache.lock or under the buffer's sleep lock, so any interleaving of threads is a sequence of
 calls.  bget is Bget then AcquireSleep; bread adds Fill; brelse is ReleaseSleep then Put.
*/
module Bio {
  import opened BufferList

  type Data = seq<int>

  datatype Key = Key(dev: nat, blockno: nat)

  datatype Buf = Buf(valid: bool, dev: nat, blockno: nat, refcnt: int, data: Data)

  /** Who refers to a buffer: log pins, and threads between bget and brelse. */
  datatype Refs = Refs(pins: nat, users: nat)

  function KeyOf(b: Buf): Key { Key(b.dev, b.blockno) }

  /** Contents of block k of a store; blocks never written read as []. */
  function Get(s: map<Key, Data>, k: Key): Data { if k in s then s[k] else [] }

  /** No block of a real device is cached twice. */
  ghost predicate Unique(buf: seq<Buf>) {
    forall i, j :: 0 <= i < j < |buf| && buf[i].dev != 0 ==> KeyOf(buf[i]) != KeyOf(buf[j])
  }

  /** Buffer i may differ from the disk: it is locked or pinned. */
  predicate Guarded(locked: seq<bool>, refs: seq<Refs>, i: nat)
    requires i < |locked| == |refs|
  {
    locked[i] || refs[i].pins > 0
  }

  ghost predicate CachedDirty(buf: seq<Buf>, locked: seq<bool>, refs: seq<Refs>, k: Key)
    requires |buf| == |locked| == |refs|
  {
    exists i :: 0 <= i < |buf| && KeyOf(buf[i]) == k && buf[i].valid && Guarded(locked, refs, i)
  }

  /** `store` is what clients last stored: valid buffers hold it, and so does the disk but for guarded buffers. */
  ghost predicate Coherent(buf: seq<Buf>, locked: seq<bool>, refs: seq<Refs>, disk: map<Key, Data>,
                           store: map<Key, Data>)
    requires |buf| == |locked| == |refs|
  {
    && (forall i :: 0 <= i < |buf| && buf[i].valid && buf[i].dev != 0 ==> buf[i].data == Get(store, KeyOf(buf[i])))
    && (forall k: Key :: k.dev != 0 && Get(disk, k) != Get(store, k) ==> CachedDirty(buf, locked, refs, k))
  }

  ghost predicate Counted(buf: seq<Buf>, locked: seq<bool>, refs: seq<Refs>)
    requires |buf| == |locked| == |refs|
  {
    forall i :: 0 <= i < |buf| ==> buf[i].refcnt == refs[i].pins + refs[i].users && (locked[i] ==> refs[i].users > 0)
  }

  ghost predicate Complete(order: seq<nat>) {
    forall b :: 0 <= b < NBUF ==> b in order
  }

  ghost predicate Descending(order: seq<nat>, stamp: seq<int>, clock: int)
    requires |stamp| == NBUF
  {
    && (forall i :: 0 <= i < |order| ==> order[i] < NBUF && stamp[order[i]] < clock)
    && (forall i, j :: 0 <= i < j < |order| ==> stamp[order[i]] > stamp[order[j]])
  }

  /** The list holds every buffer and is sorted by release time, latest first. */
  ghost predicate Lru(order: seq<nat>, stamp: seq<int>, clock: int) {
    |stamp| == NBUF && Complete(order) && Descending(order, stamp, clock)
  }

  lemma MovedIn(order: seq<nat>, k: nat, b: nat)
    requires k < |order| && b in order
    ensures b in [order[k]] + Without(order, k)
  {}

  lemma MovedDescending(order: seq<nat>, stamp: seq<int>, clock: int, k: nat)
    requires |stamp| == NBUF && Descending(order, stamp, clock) && k < |order|
    ensures Descending([order[k]] + Without(order, k), stamp[order[k] := clock], clock + 1)
  {}

  /** Moving block k to the front, with the latest stamp. */
  lemma MoveLru(order: seq<nat>, stamp: seq<int>, clock: int, k: nat)
    requires Lru(order, stamp, clock) && k < |order|
    ensures Lru([order[k]] + Without(order, k), stamp[order[k] := clock], clock + 1)
  {
    MovedDescending(order, stamp, clock, k);
    forall b | 0 <= b < NBUF ensures b in [order[k]] + Without(order, k) {
      MovedIn(order, k, b);
    }
  }

  /** Giving buffer i, unreferenced, to block k that is not cached. */
  lemma RecycleKeeps(buf: seq<Buf>, locked: seq<bool>, refs: seq<Refs>, disk: map<Key, Data>, store: map<Key, Data>,
                     i: nat, b: Buf, u: Refs)
    requires |buf| == |locked| == |refs| && i < |buf| && Unique(buf) && Counted(buf, locked, refs)
    requires Coherent(buf, locked, refs, disk, store) && buf[i].refcnt == 0
    requires forall j :: 0 <= j < |buf| ==> KeyOf(buf[j]) != KeyOf(b)
    requires !b.valid && b.refcnt == 1 && u == Refs(0, 1)
    ensures Unique(buf[i := b]) && Counted(buf[i := b], locked, refs[i := u])
    ensures Coherent(buf[i := b], locked, refs[i := u], disk, store)
  {}

  /** Changing only reference counts and locks keeps coherence if a guard is dropped only from a clean buffer. */
  lemma RefsKeep(buf: seq<Buf>, locked: seq<bool>, refs: seq<Refs>, disk: map<Key, Data>, store: map<Key, Data>,
                 i: nat, n: int, l: bool, u: Refs)
    requires |buf| == |locked| == |refs| && i < |buf| && Unique(buf) && Coherent(buf, locked, refs, disk, store)
    requires Guarded(locked, refs, i) ==> l || u.pins > 0 || Get(disk, KeyOf(buf[i])) == buf[i].data || buf[i].dev == 0
    ensures Unique(buf[i := buf[i].(refcnt := n)])
    ensures Coherent(buf[i := buf[i].(refcnt := n)], locked[i := l], refs[i := u], disk, store)
  {
    var buf' := buf[i := buf[i].(refcnt := n)];
    forall k: Key | k.dev != 0 && Get(disk, k) != Get(store, k)
      ensures CachedDirty(buf', locked[i := l], refs[i := u], k)
    {
      assert CachedDirty(buf, locked, refs, k);
      var j :| 0 <= j < |buf| && KeyOf(buf[j]) == k && buf[j].valid && Guarded(locked, refs, j);
      assert KeyOf(buf'[j]) == k && Guarded(locked[i := l], refs[i := u], j);
    }
    assert forall j :: 0 <= j < |buf| ==> KeyOf(buf'[j]) == KeyOf(buf[j]);
  }

  /** Storing new contents in a locked, valid buffer. */
  lemma StoreKeeps(buf: seq<Buf>, locked: seq<bool>, refs: seq<Refs>, disk: map<Key, Data>, store: map<Key, Data>,
                   i: nat, d: Data)
    requires |buf| == |locked| == |refs| && i < |buf| && Unique(buf) && Coherent(buf, locked, refs, disk, store)
    requires locked[i] && buf[i].valid
    ensures var buf', store' := buf[i := buf[i].(data := d)], store[KeyOf(buf[i]) := d];
            Unique(buf') && Coherent(buf', locked, refs, disk, store')
  {
    var buf', store' := buf[i := buf[i].(data := d)], store[KeyOf(buf[i]) := d];
    forall k: Key | k.dev != 0 && Get(disk, k) != Get(store', k) ensures CachedDirty(buf', locked, refs, k) {
      if k == KeyOf(buf[i]) {
        assert KeyOf(buf'[i]) == k && Guarded(locked, refs, i);
      } else {
        assert CachedDirty(buf, locked, refs, k);
        var j :| 0 <= j < |buf| && KeyOf(buf[j]) == k && buf[j].valid && Guarded(locked, refs, j);
        assert KeyOf(buf'[j]) == k;
      }
    }
    assert forall j :: 0 <= j < |buf| ==> KeyOf(buf'[j]) == KeyOf(buf[j]);
  }

  /** Reading a block from the disk into a buffer that was not valid. */
  lemma FillKeeps(buf: seq<Buf>, locked: seq<bool>, refs: seq<Refs>, disk: map<Key, Data>, store: map<Key, Data>,
                  i: nat)
    requires |buf| == |locked| == |refs| && i < |buf| && Unique(buf) && Coherent(buf, locked, refs, disk, store)
    requires !buf[i].valid && locked[i]
    ensures var buf' := buf[i := buf[i].(data := Get(disk, KeyOf(buf[i])), valid := true)];
            Unique(buf') && Coherent(buf', locked, refs, disk, store)
  {}

  class Bcache {
    var next: seq<nat>
    var prev: seq<nat>
    var buf: seq<Buf>
    var locked: seq<bool>             // buf[i].lock
    var disk: map<Key, Data>
    ghost var order: seq<nat>         // the list, most recently used first
    ghost var stamp: seq<int>         // when each buffer was last released
    ghost var clock: int
    ghost var refs: seq<Refs>
    ghost var store: map<Key, Data>   // the last contents stored for each block

    ghost predicate Valid()
      reads this
    {
      && |buf| == |locked| == |refs| == NBUF
      && ListOk(next, prev, order) && Lru(order, stamp, clock)
      && Unique(buf) && Counted(buf, locked, refs) && Coherent(buf, locked, refs, disk, store)
    }

    constructor (disk: map<Key, Data>)
      ensures |buf| == |locked| == |refs| == |stamp| == NBUF && |next| == |prev| == NBUF + 1
      ensures forall i :: 0 <= i < NBUF ==> buf[i] == Buf(false, 0, 0, 0, []) && !locked[i] && refs[i] == Refs(0, 0)
      ensures forall i :: 0 <= i < NBUF ==> stamp[i] == i
      ensures order == [] && clock == NBUF && store == disk == this.disk
    {
      next := seq(NBUF + 1, _ => 0);
      prev := seq(NBUF + 1, _ => 0);
      order, clock := [], NBUF;
      stamp := seq(NBUF, i => i);
      buf := seq(NBUF, _ => Buf(false, 0, 0, 0, []));
      locked := seq(NBUF, _ => false);
      refs := seq(NBUF, _ => Refs(0, 0));
      this.disk, store := disk, disk;
    }

    /** binit(), on zeroed memory. */
    method Binit()
      requires |buf| == |locked| == |refs| == |stamp| == NBUF && |next| == |prev| == NBUF + 1
      requires forall i :: 0 <= i < NBUF ==> buf[i] == Buf(false, 0, 0, 0, []) && !locked[i] && refs[i] == Refs(0, 0)
      requires forall i :: 0 <= i < NBUF ==> stamp[i] == i
      requires order == [] && clock == NBUF && store == disk
      modifies `next, `prev, `order
      ensures Valid()
    {
      BuildList();
      assert Lru(order, stamp, clock);
    }

    method BuildList()
      requires |next| == |prev| == NBUF + 1 && order == []
      modifies `next, `prev, `order
      ensures ListOk(next, prev, order) && |order| == NBUF
      ensures forall i :: 0 <= i < NBUF ==> order[i] == NBUF - 1 - i
      ensures forall b :: 0 <= b < NBUF ==> b in order
    {
      prev := prev[HEAD := HEAD];
      next := next[HEAD := HEAD];
      var b := 0;
      while b < NBUF
        invariant 0 <= b <= NBUF && ListOk(next, prev, order) && |order| == b
        invariant forall i :: 0 <= i < b ==> order[i] == b - 1 - i
      {
        Insert(b);
        b := b + 1;
      }
      forall b | 0 <= b < NBUF ensures b in order {
        assert order[NBUF - 1 - b] == b;
      }
    }

    /** Linking b in after the head. */
    method Insert(b: nat)
      requires ListOk(next, prev, order) && b < NBUF && b !in order
      modifies `next, `prev, `order
      ensures ListOk(next, prev, order) && order == [b] + old(order)
    {
      InsertOk(next, prev, order, b);
      ghost var n, p := InsertedNext(next, b), InsertedPrev(next, prev, b);
      next := next[b := next[HEAD]];
      prev := prev[b := HEAD];
      prev := prev[next[HEAD] := b];
      next := next[HEAD := b];
      assert next == n && prev == p;
      order := [b] + order;
    }

    /** The first loop of bget: head to tail. */
    method FindCached(dev: nat, blockno: nat) returns (b: nat)
      requires Valid()
      ensures b == HEAD ==> forall i :: 0 <= i < NBUF ==> KeyOf(buf[i]) != Key(dev, blockno)
      ensures b != HEAD ==> b < NBUF && KeyOf(buf[b]) == Key(dev, blockno)
    {
      ghost var k := 1;
      b := next[HEAD];
      assert Adjacent(next, prev, Ring(order)[0], Ring(order)[1]);
      while b != HEAD
        invariant 1 <= k < |order| + 2 && b == Ring(order)[k]
        invariant forall i :: 0 <= i < k - 1 ==> KeyOf(buf[order[i]]) != Key(dev, blockno)
        decreases |order| - k
      {
        if buf[b].dev == dev && buf[b].blockno == blockno {
          return;
        }
        assert Adjacent(next, prev, Ring(order)[k], Ring(order)[k + 1]);
        b := next[b];
        k := k + 1;
      }
      assert k == |order| + 1;
      forall i | 0 <= i < NBUF ensures KeyOf(buf[i]) != Key(dev, blockno) {
        assert i in order;
        var j :| 0 <= j < |order| && order[j] == i;
      }
    }

    /** The second loop of bget: tail to head. */
    method FindVictim() returns (b: nat)
      requires Valid()
      ensures b == HEAD ==> forall i :: 0 <= i < NBUF ==> buf[i].refcnt != 0
      ensures b != HEAD ==> b < NBUF && buf[b].refcnt == 0
      ensures b != HEAD ==> forall i :: 0 <= i < NBUF && buf[i].refcnt == 0 ==> stamp[b] <= stamp[i]
    {
      ghost var k := |order|;
      b := prev[HEAD];
      assert Adjacent(next, prev, Ring(order)[k], Ring(order)[k + 1]);
      while b != HEAD
        invariant 0 <= k <= |order| && b == Ring(order)[k]
        invariant forall i :: k <= i < |order| ==> buf[order[i]].refcnt != 0
        decreases k
      {
        if buf[b].refcnt == 0 {
          forall i | 0 <= i < NBUF && buf[i].refcnt == 0 ensures stamp[b] <= stamp[i] {
            assert i in order;
            var j :| 0 <= j < |order| && order[j] == i;
            assert b == order[k - 1];
          }
          return;
        }
        assert Adjacent(next, prev, Ring(order)[k - 1], Ring(order)[k]);
        b := prev[b];
        k := k - 1;
      }
      forall i | 0 <= i < NBUF ensures buf[i].refcnt != 0 {
        assert i in order;
        var j :| 0 <= j < |order| && order[j] == i;
      }
    }

    /** The critical section of bget; HEAD stands for the panic "bget: no buffers". */
    method Bget(dev: nat, blockno: nat) returns (b: nat)
      requires Valid()
      modifies `buf, `refs
      ensures Valid() && (b == HEAD || b < NBUF)
      ensures b == HEAD <==> (forall i :: 0 <= i < NBUF ==> KeyOf(old(buf)[i]) != Key(dev, blockno))
                             && (forall i :: 0 <= i < NBUF ==> old(buf)[i].refcnt != 0)
      ensures b == HEAD ==> buf == old(buf) && refs == old(refs)
      ensures b < NBUF ==> KeyOf(buf[b]) == Key(dev, blockno)
                           && refs == old(refs)[b := Refs(old(refs)[b].pins, old(refs)[b].users + 1)]
      ensures b < NBUF && KeyOf(old(buf)[b]) == Key(dev, blockno)
              ==> buf == old(buf)[b := old(buf)[b].(refcnt := old(buf)[b].refcnt + 1)]
      ensures b < NBUF && KeyOf(old(buf)[b]) != Key(dev, blockno)
              ==> && old(buf)[b].refcnt == 0 && buf == old(buf)[b := Buf(false, dev, blockno, 1, old(buf)[b].data)]
                  && (forall i :: 0 <= i < NBUF ==> KeyOf(old(buf)[i]) != Key(dev, blockno))
                  && (forall i :: 0 <= i < NBUF && old(buf)[i].refcnt == 0 ==> stamp[b] <= stamp[i])
    {
      b := FindCached(dev, blockno);
      if b != HEAD {
        ghost var u := Refs(refs[b].pins, refs[b].users + 1);
        RefsKeep(buf, locked, refs, disk, store, b, buf[b].refcnt + 1, locked[b], u);
        assert locked[b := locked[b]] == locked;
        buf := buf[b := buf[b].(refcnt := buf[b].refcnt + 1)];
        refs := refs[b := u];
        return;
      }
      b := FindVictim();
      if b != HEAD {
        ghost var nb, u := Buf(false, dev, blockno, 1, buf[b].data), Refs(0, 1);
        RecycleKeeps(buf, locked, refs, disk, store, b, nb, u);
        buf := buf[b := buf[b].(dev := dev, blockno := blockno, valid := false, refcnt := 1)];
        refs := refs[b := u];
      }
    }

    /** acquiresleep(&b->lock) returning to a thread that holds a reference. */
    method AcquireSleep(b: nat)
      requires Valid() && b < NBUF && !locked[b] && refs[b].users > 0
      modifies `locked
      ensures Valid() && locked == old(locked)[b := true]
    {
      RefsKeep(buf, locked, refs, disk, store, b, buf[b].refcnt, true, refs[b]);
      assert buf[b := buf[b].(refcnt := buf[b].refcnt)] == buf && refs[b := refs[b]] == refs;
      locked := locked[b := true];
    }

    /** The rest of bread: the buffer now holds the last contents stored for its block. */
    method Fill(b: nat)
      requires Valid() && b < NBUF && locked[b]
      modifies `buf
      ensures Valid() && buf[b].valid && KeyOf(buf[b]) == KeyOf(old(buf)[b])
      ensures buf[b].dev != 0 ==> buf[b].data == Get(store, KeyOf(buf[b]))
      ensures buf == old(buf)[b := old(buf)[b].(valid := true, data := buf[b].data)]
      ensures old(buf)[b].valid ==> buf == old(buf)
    {
      if !buf[b].valid {
        FillKeeps(buf, locked, refs, disk, store, b);
        buf := buf[b := buf[b].(data := Get(disk, KeyOf(buf[b])), valid := true)];
      }
    }

    /** The holder changes b->data. */
    method Modify(b: nat, d: Data)
      requires Valid() && b < NBUF && locked[b] && buf[b].valid
      modifies `buf, `store
      ensures Valid() && store == old(store)[KeyOf(old(buf)[b]) := d]
      ensures buf == old(buf)[b := old(buf)[b].(data := d)]
    {
      StoreKeeps(buf, locked, refs, disk, store, b, d);
      store := store[KeyOf(buf[b]) := d];
      buf := buf[b := buf[b].(data := d)];
    }

    /** bwrite() */
    method Bwrite(b: nat)
      requires Valid() && b < NBUF && locked[b] && buf[b].valid
      modifies `disk
      ensures Valid() && disk == old(disk)[KeyOf(buf[b]) := buf[b].data]
    {
      disk := disk[KeyOf(buf[b]) := buf[b].data];
    }

    /** releasesleep() in brelse, by a client that has written or pinned what it changed. */
    method ReleaseSleep(b: nat)
      requires Valid() && b < NBUF && locked[b]
      requires refs[b].pins > 0 || Get(disk, KeyOf(buf[b])) == buf[b].data || !buf[b].valid
      modifies `locked
      ensures Valid() && locked == old(locked)[b := false]
    {
      Unlock(b);
      locked := locked[b := false];
    }

    lemma Unlock(b: nat)
      requires Valid() && b < NBUF && locked[b]
      requires refs[b].pins > 0 || Get(disk, KeyOf(buf[b])) == buf[b].data || !buf[b].valid
      ensures Coherent(buf, locked[b := false], refs, disk, store)
    {}

    /** The critical section of brelse, by a thread that no longer holds the sleep lock. */
    method Put(b: nat) returns (ghost k: nat)
      requires Valid() && b < NBUF && refs[b].users > (if locked[b] then 1 else 0)
      modifies `buf, `refs, `next, `prev, `order, `stamp, `clock
      ensures Valid()
      ensures buf == old(buf)[b := old(buf)[b].(refcnt := old(buf)[b].refcnt - 1)]
      ensures refs == old(refs)[b := Refs(old(refs)[b].pins, old(refs)[b].users - 1)]
      ensures k < |old(order)| && old(order)[k] == b
      ensures buf[b].refcnt == 0 ==> order == [b] + Without(old(order), k) && stamp == old(stamp)[b := old(clock)]
      ensures buf[b].refcnt != 0 ==> order == old(order) && stamp == old(stamp)
    {
      assert b in order;
      k :| 0 <= k < |order| && order[k] == b;
      DropUser(b);
      if buf[b].refcnt == 0 {
        MoveToFront(b, k);
      }
    }

    method DropUser(b: nat)
      requires Valid() && b < NBUF && refs[b].users > (if locked[b] then 1 else 0)
      modifies `buf, `refs
      ensures Valid()
      ensures buf == old(buf)[b := old(buf)[b].(refcnt := old(buf)[b].refcnt - 1)]
      ensures refs == old(refs)[b := Refs(old(refs)[b].pins, old(refs)[b].users - 1)]
    {
      ghost var u := Refs(refs[b].pins, refs[b].users - 1);
      RefsKeep(buf, locked, refs, disk, store, b, buf[b].refcnt - 1, locked[b], u);
      assert locked[b := locked[b]] == locked;
      buf := buf[b := buf[b].(refcnt := buf[b].refcnt - 1)];
      refs := refs[b := u];
    }

    /** The pointer surgery of brelse. */
    method MoveToFront(b: nat, ghost k: nat)
      requires ListOk(next, prev, order) && Lru(order, stamp, clock) && k < |order| && order[k] == b
      modifies `next, `prev, `order, `stamp, `clock
      ensures ListOk(next, prev, order) && order == [b] + Without(old(order), k)
      ensures Lru(order, stamp, clock) && stamp == old(stamp)[b := old(clock)]
    {
      MoveLru(order, stamp, clock, k);
      Unlink(b, k);
      Insert(b);
      stamp, clock := stamp[b := clock], clock + 1;
    }

    method Unlink(b: nat, ghost k: nat)
      requires ListOk(next, prev, order) && k < |order| && order[k] == b
      modifies `next, `prev, `order
      ensures ListOk(next, prev, order) && order == Without(old(order), k) && b !in order
    {
      UnlinkOk(next, prev, order, k);
      ghost var n, p := next[prev[b] := next[b]], prev[next[b] := prev[b]];
      prev := prev[next[b] := prev[b]];
      next := next[prev[b] := next[b]];
      assert next == n && prev == p;
      order := Without(order, k);
    }

    /** bpin() by a holder. */
    method Bpin(b: nat)
      requires Valid() && b < NBUF
      modifies `buf, `refs
      ensures Valid() && buf == old(buf)[b := old(buf)[b].(refcnt := old(buf)[b].refcnt + 1)]
      ensures refs == old(refs)[b := Refs(old(refs)[b].pins + 1, old(refs)[b].users)]
    {
      ghost var u := Refs(refs[b].pins + 1, refs[b].users);
      RefsKeep(buf, locked, refs, disk, store, b, buf[b].refcnt + 1, locked[b], u);
      assert locked[b := locked[b]] == locked;
      buf := buf[b := buf[b].(refcnt := buf[b].refcnt + 1)];
      refs := refs[b := u];
    }

    /** bunpin() of a buffer that has been written, is pinned again, or is locked. */
    method Bunpin(b: nat)
      requires Valid() && b < NBUF && refs[b].pins > 0
      requires refs[b].pins > 1 || locked[b] || Get(disk, KeyOf(buf[b])) == buf[b].data
      modifies `buf, `refs
      ensures Valid() && buf == old(buf)[b := old(buf)[b].(refcnt := old(buf)[b].refcnt - 1)]
      ensures refs == old(refs)[b := Refs(old(refs)[b].pins - 1, old(refs)[b].users)]
    {
      ghost var u := Refs(refs[b].pins - 1, refs[b].users);
      RefsKeep(buf, locked, refs, disk, store, b, buf[b].refcnt - 1, locked[b], u);
      assert locked[b := locked[b]] == locked;
      buf := buf[b := buf[b].(refcnt := buf[b].refcnt - 1)];
      refs := refs[b := u];
    }
  }
}
