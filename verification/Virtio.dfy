/**
 kernel/virtio_disk.c: virtqueue descriptors, the available and used rings, and a device that
 takes chains in order and completes them in any order.  Methods are the critical sections of
 the driver and the steps of the device; 16-bit ring indices wrap, `submitted`, `taken`,
 `completed` and `consumed` count for ever.
*/
module Virtio {

  const NUM: nat := 8
  const WRAP: nat := 0x1_0000

  /** What a descriptor points at: a command header, a block's data, or a status byte. */
  datatype Addr = Nothing | Header(i: nat) | DataOf(b: nat) | StatusOf(i: nat)

  datatype Desc = Desc(addr: Addr, deviceWrites: bool, hasNext: bool, next: nat)

  datatype Op = Op(write: bool, sector: nat)

  datatype Info = Info(b: nat, status: nat)

  datatype Stage = Queued | Taken | Completed | Consumed

  /** A request in flight: its three descriptors, its buffer, and where in the used ring it was completed. */
  datatype Chain = Chain(h: nat, m: nat, t: nat, b: nat, op: Op, stage: Stage, u: nat)

  datatype Owner = Nobody | By(n: nat)

  function NoDesc(): Desc { Desc(Nothing, false, false, 0) }

  function CountFree(free: seq<bool>): nat {
    if free == [] then 0 else CountFree(free[..|free| - 1]) + if free[|free| - 1] then 1 else 0
  }

  lemma {:induction false} CountTaken(free: seq<bool>, i: nat)
    requires i < |free| && free[i]
    ensures CountFree(free[i := false]) == CountFree(free) - 1
  {
    var f := free[i := false];
    if i < |free| - 1 {
      assert f[..|f| - 1] == free[..|free| - 1][i := false];
      CountTaken(free[..|free| - 1], i);
    } else {
      assert f[..|f| - 1] == free[..|free| - 1];
    }
  }

  lemma {:induction false} NoneFree(free: seq<bool>)
    requires forall i :: 0 <= i < |free| ==> !free[i]
    ensures CountFree(free) == 0
  {
    if free != [] {
      NoneFree(free[..|free| - 1]);
    }
  }

  /** Three entries replaced. */
  function Put3<T>(s: seq<T>, h: nat, m: nat, t: nat, x: T, y: T, z: T): (r: seq<T>)
    requires h < |s| && m < |s| && t < |s|
    ensures |r| == |s|
  {
    s[h := x][m := y][t := z]
  }

  /** The descriptors of a chain, formatted for a request. */
  function Formatted(desc: seq<Desc>, h: nat, m: nat, t: nat, b: nat, op: Op): (r: seq<Desc>)
    requires h < |desc| && m < |desc| && t < |desc|
    ensures |r| == |desc|
  {
    Put3(desc, h, m, t,
         Desc(Header(h), false, true, m), Desc(DataOf(b), !op.write, true, t), Desc(StatusOf(h), true, false, 0))
  }

  /** The queue as the driver and the device share it. */
  datatype Queue = Queue(free: seq<bool>, desc: seq<Desc>, info: seq<Info>, ops: seq<Op>, avail: seq<nat>,
                         used: seq<nat>, fly: map<nat, Chain>, owner: seq<Owner>, done: seq<nat>,
                         submitted: nat, taken: nat, consumed: nat)

  ghost predicate Shape(q: Queue) {
    |q.free| == |q.desc| == |q.info| == |q.ops| == |q.avail| == |q.used| == |q.owner| == NUM
  }

  /** Chain n owns its three descriptors, and they say what was asked for. */
  ghost predicate ChainOk(q: Queue, n: nat)
    requires Shape(q) && n in q.fly
  {
    var c := q.fly[n];
    && n < q.submitted && c.h < NUM && c.m < NUM && c.t < NUM && c.h != c.m && c.h != c.t && c.m != c.t
    && q.owner[c.h] == By(n) && q.owner[c.m] == By(n) && q.owner[c.t] == By(n)
    && q.desc[c.h] == Desc(Header(c.h), false, true, c.m)
    && q.desc[c.m] == Desc(DataOf(c.b), !c.op.write, true, c.t)
    && q.desc[c.t] == Desc(StatusOf(c.h), true, false, 0)
    && q.info[c.h].b == c.b && q.ops[c.h] == c.op
    && (c.stage.Queued? <==> n >= q.taken)
    && (c.stage.Completed? ==> q.consumed <= c.u < |q.done| && q.done[c.u] == n && q.info[c.h].status == 0)
    && (c.stage.Consumed? ==> c.u < q.consumed)
  }

  /** A descriptor is free, or belongs to exactly one chain. */
  ghost predicate DescOk(q: Queue, d: nat)
    requires Shape(q) && d < NUM
  {
    if q.free[d] then q.owner[d].Nobody?
    else q.owner[d].By? && q.owner[d].n in q.fly && var c := q.fly[q.owner[d].n]; d == c.h || d == c.m || d == c.t
  }

  /** The entry of the available ring for submission k. */
  ghost predicate AvailOk(q: Queue, k: nat)
    requires Shape(q)
  {
    k in q.fly && q.fly[k].stage.Queued? && q.avail[k % NUM] == q.fly[k].h
  }

  /** The entry of the used ring for completion k. */
  ghost predicate UsedOk(q: Queue, k: nat)
    requires Shape(q) && k < |q.done|
  {
    var n := q.done[k];
    n in q.fly && q.fly[n].stage.Completed? && q.fly[n].u == k && q.used[k % NUM] == q.fly[n].h
  }

  ghost predicate QueueOk(q: Queue) {
    && Shape(q) && q.taken <= q.submitted && q.consumed <= |q.done|
    && (forall n {:trigger ChainOk(q, n)} :: n in q.fly ==> ChainOk(q, n))
    && (forall d: nat {:trigger DescOk(q, d)} :: d < NUM ==> DescOk(q, d))
    && (forall k: nat {:trigger AvailOk(q, k)} :: q.taken <= k < q.submitted ==> AvailOk(q, k))
    && (forall k: nat {:trigger UsedOk(q, k)} :: q.consumed <= k < |q.done| ==> UsedOk(q, k))
  }

  // ---------------------------------------------------------------- rings never overflow

  lemma {:induction false} FewBelow(s: set<nat>, n: nat)
    requires forall x :: x in s ==> x < n
    ensures |s| <= n
  {
    if n == 0 {
      assert s == {};
    } else {
      FewBelow(s - {n - 1}, n - 1);
      assert |s| <= |s - {n - 1}| + 1;
    }
  }

  lemma FewDescriptors(s: set<nat>, h: nat)
    requires h !in s && h < NUM && forall x :: x in s ==> x < NUM
    ensures |s| < NUM
  {
    FewBelow(s + {h}, NUM);
  }

  /** Descriptor x is the head of the chain that owns it. */
  ghost predicate IsHead(q: Queue, x: nat) {
    Shape(q) && x < NUM && q.owner[x].By? && q.owner[x].n in q.fly && q.fly[q.owner[x].n].h == x
  }

  /** The heads of the chains queued before submission k. */
  lemma {:induction false} QueuedHeads(q: Queue, k: nat) returns (s: set<nat>)
    requires QueueOk(q) && q.taken <= k <= q.submitted
    ensures |s| == k - q.taken
    ensures forall x :: x in s ==> IsHead(q, x) && q.taken <= q.owner[x].n < k
    decreases k
  {
    if k == q.taken {
      s := {};
    } else {
      s := QueuedHeads(q, k - 1);
      assert AvailOk(q, k - 1) && ChainOk(q, k - 1);
      s := s + {q.fly[k - 1].h};
    }
  }

  /** The heads of the chains completed before completion k and not yet consumed. */
  lemma {:induction false} CompletedHeads(q: Queue, k: nat) returns (s: set<nat>)
    requires QueueOk(q) && q.consumed <= k <= |q.done|
    ensures |s| == k - q.consumed
    ensures forall x :: x in s ==> IsHead(q, x) && q.fly[q.owner[x].n].stage.Completed? && q.fly[q.owner[x].n].u < k
    decreases k
  {
    if k == q.consumed {
      s := {};
    } else {
      s := CompletedHeads(q, k - 1);
      assert UsedOk(q, k - 1) && ChainOk(q, q.done[k - 1]);
      s := s + {q.fly[q.done[k - 1]].h};
    }
  }

  // ---------------------------------------------------------------- steps

  /** virtio_disk_rw() up to the notification. */
  function Submit(q: Queue, h: nat, m: nat, t: nat, b: nat, op: Op): Queue
    requires Shape(q) && h < NUM && m < NUM && t < NUM
  {
    q.(free := Put3(q.free, h, m, t, false, false, false),
       desc := Formatted(q.desc, h, m, t, b, op),
       info := q.info[h := Info(b, 0xff)],
       ops := q.ops[h := op],
       avail := q.avail[q.submitted % NUM := h],
       fly := q.fly[q.submitted := Chain(h, m, t, b, op, Queued, 0)],
       owner := Put3(q.owner, h, m, t, By(q.submitted), By(q.submitted), By(q.submitted)),
       submitted := q.submitted + 1)
  }

  ghost predicate CanSubmit(q: Queue, h: nat, m: nat, t: nat) {
    QueueOk(q) && h < NUM && m < NUM && t < NUM && h != m && h != t && m != t && q.free[h] && q.free[m] && q.free[t]
  }

  lemma SubmitOk(q: Queue, h: nat, m: nat, t: nat, b: nat, op: Op)
    requires CanSubmit(q, h, m, t)
    ensures QueueOk(Submit(q, h, m, t, b, op)) && q.submitted !in q.fly && q.submitted - q.taken < NUM
  {
    var q' := Submit(q, h, m, t, b, op);
    SubmitRoom(q, h, m, t);
    forall n | n in q'.fly ensures ChainOk(q', n) {
      SubmitChain(q, h, m, t, b, op, n);
    }
    forall d: nat | d < NUM ensures DescOk(q', d) {
      SubmitDesc(q, h, m, t, b, op, d);
    }
    forall k: nat | q'.taken <= k < q'.submitted ensures AvailOk(q', k) {
      SubmitAvail(q, h, m, t, b, op, k);
    }
    forall k: nat | q'.consumed <= k < |q'.done| ensures UsedOk(q', k) {
      SubmitUsed(q, h, m, t, b, op, k);
    }
  }

  lemma SubmitRoom(q: Queue, h: nat, m: nat, t: nat)
    requires CanSubmit(q, h, m, t)
    ensures q.submitted !in q.fly && q.submitted - q.taken < NUM
  {
    assert DescOk(q, h);
    var heads := QueuedHeads(q, q.submitted);
    FewDescriptors(heads, h);
    assert q.submitted in q.fly ==> ChainOk(q, q.submitted);
  }

  lemma SubmitAvail(q: Queue, h: nat, m: nat, t: nat, b: nat, op: Op, k: nat)
    requires CanSubmit(q, h, m, t) && q.taken <= k <= q.submitted < q.taken + NUM
    ensures AvailOk(Submit(q, h, m, t, b, op), k)
  {
    if k < q.submitted {
      assert AvailOk(q, k);
      SlotsApart(k, q.submitted);
    }
  }

  lemma SubmitUsed(q: Queue, h: nat, m: nat, t: nat, b: nat, op: Op, k: nat)
    requires CanSubmit(q, h, m, t) && q.consumed <= k < |q.done| && q.submitted !in q.fly
    ensures UsedOk(Submit(q, h, m, t, b, op), k)
  {
    assert UsedOk(q, k);
  }

  lemma SubmitChain(q: Queue, h: nat, m: nat, t: nat, b: nat, op: Op, n: nat)
    requires CanSubmit(q, h, m, t) && n in Submit(q, h, m, t, b, op).fly
    ensures ChainOk(Submit(q, h, m, t, b, op), n)
  {
    assert DescOk(q, h) && DescOk(q, m) && DescOk(q, t);
    assert n != q.submitted ==> n in q.fly && ChainOk(q, n);
  }

  lemma SubmitDesc(q: Queue, h: nat, m: nat, t: nat, b: nat, op: Op, d: nat)
    requires CanSubmit(q, h, m, t) && d < NUM
    ensures DescOk(Submit(q, h, m, t, b, op), d)
  {
    assert DescOk(q, d);
    assert q.owner[d].By? && q.owner[d].n in q.fly ==> ChainOk(q, q.owner[d].n);
  }

  lemma SlotsApart(k: nat, l: nat)
    requires k < l < k + NUM
    ensures k % NUM != l % NUM
  {}

  /** The device takes the next available chain. */
  function Take(q: Queue): Queue
    requires q.taken in q.fly
  {
    q.(fly := q.fly[q.taken := q.fly[q.taken].(stage := Taken)], taken := q.taken + 1)
  }

  lemma TakeOk(q: Queue)
    requires QueueOk(q) && q.taken < q.submitted
    ensures q.taken in q.fly && q.avail[q.taken % NUM] == q.fly[q.taken].h && q.fly[q.taken].stage.Queued?
    ensures QueueOk(Take(q))
  {
    assert AvailOk(q, q.taken);
    var q' := Take(q);
    forall n | n in q'.fly ensures ChainOk(q', n) {
      assert ChainOk(q, n);
    }
    forall d: nat | d < NUM ensures DescOk(q', d) {
      assert DescOk(q, d);
    }
    forall k: nat | q'.taken <= k < q'.submitted ensures AvailOk(q', k) {
      assert AvailOk(q, k);
    }
    forall k: nat | q'.consumed <= k < |q'.done| ensures UsedOk(q', k) {
      assert UsedOk(q, k);
    }
  }

  /** The device completes chain n: status 0, an entry in the used ring. */
  function Complete(q: Queue, n: nat): Queue
    requires Shape(q) && n in q.fly && q.fly[n].h < NUM
  {
    var c := q.fly[n];
    q.(info := q.info[c.h := q.info[c.h].(status := 0)],
       used := q.used[|q.done| % NUM := c.h],
       fly := q.fly[n := c.(stage := Completed, u := |q.done|)],
       done := q.done + [n])
  }

  lemma CompleteOk(q: Queue, n: nat)
    requires QueueOk(q) && n in q.fly && q.fly[n].stage.Taken?
    ensures q.fly[n].h < NUM && QueueOk(Complete(q, n)) && |q.done| - q.consumed < NUM
  {
    assert ChainOk(q, n);
    var q' := Complete(q, n);
    var heads := CompletedHeads(q, |q.done|);
    FewDescriptors(heads, q.fly[n].h);
    forall m | m in q'.fly ensures ChainOk(q', m) {
      assert ChainOk(q, m);
    }
    forall d: nat | d < NUM ensures DescOk(q', d) {
      assert DescOk(q, d);
    }
    forall k: nat | q'.taken <= k < q'.submitted ensures AvailOk(q', k) {
      assert AvailOk(q, k);
    }
    forall k: nat | q'.consumed <= k < |q'.done| ensures UsedOk(q', k) {
      if k < |q.done| {
        assert UsedOk(q, k);
        SlotsApart(k, |q.done|);
      }
    }
  }

  /** One round of virtio_disk_intr(). */
  function Consume(q: Queue): Queue
    requires q.consumed < |q.done| && q.done[q.consumed] in q.fly
  {
    var n := q.done[q.consumed];
    q.(fly := q.fly[n := q.fly[n].(stage := Consumed)], consumed := q.consumed + 1)
  }

  /** The used entry names the chain completed at that place, and its info the buffer that issued it. */
  lemma ConsumeOk(q: Queue)
    requires QueueOk(q) && q.consumed < |q.done|
    ensures q.done[q.consumed] in q.fly && QueueOk(Consume(q))
    ensures var n := q.done[q.consumed]; var id := q.used[q.consumed % NUM];
            && q.fly[n].stage.Completed? && q.fly[n].h == id < NUM && q.info[id] == Info(q.fly[n].b, 0)
  {
    var n := q.done[q.consumed];
    assert UsedOk(q, q.consumed) && ChainOk(q, n);
    var q' := Consume(q);
    forall m | m in q'.fly ensures ChainOk(q', m) {
      assert ChainOk(q, m);
    }
    forall d: nat | d < NUM ensures DescOk(q', d) {
      assert DescOk(q, d);
    }
    forall k: nat | q'.taken <= k < q'.submitted ensures AvailOk(q', k) {
      assert AvailOk(q, k);
    }
    forall k: nat | q'.consumed <= k < |q'.done| ensures UsedOk(q', k) {
      assert UsedOk(q, k);
    }
  }

  /** The end of virtio_disk_rw(): free_chain(). */
  function Release(q: Queue, n: nat): Queue
    requires Shape(q) && n in q.fly && q.fly[n].h < NUM && q.fly[n].m < NUM && q.fly[n].t < NUM
  {
    var c := q.fly[n];
    q.(free := Put3(q.free, c.h, c.m, c.t, true, true, true),
       desc := Put3(q.desc, c.h, c.m, c.t, NoDesc(), NoDesc(), NoDesc()),
       info := q.info[c.h := q.info[c.h].(b := 0)],
       fly := q.fly - {n},
       owner := Put3(q.owner, c.h, c.m, c.t, Nobody, Nobody, Nobody))
  }

  lemma ReleaseOk(q: Queue, n: nat)
    requires QueueOk(q) && n in q.fly && q.fly[n].stage.Consumed?
    ensures ChainOk(q, n) && QueueOk(Release(q, n))
  {
    assert ChainOk(q, n);
    var q' := Release(q, n);
    forall m | m in q'.fly ensures ChainOk(q', m) {
      assert ChainOk(q, m);
    }
    forall d: nat | d < NUM ensures DescOk(q', d) {
      assert DescOk(q, d);
    }
    forall k: nat | q'.taken <= k < q'.submitted ensures AvailOk(q', k) {
      assert AvailOk(q, k);
    }
    forall k: nat | q'.consumed <= k < |q'.done| ensures UsedOk(q', k) {
      assert UsedOk(q, k);
    }
  }

  // ---------------------------------------------------------------- the driver

  /** Exactly the descriptors idx, all different, have been taken from free0. */
  ghost predicate Claimed(free0: seq<bool>, free: seq<bool>, idx: seq<nat>) {
    && |free| == |free0|
    && (forall k :: 0 <= k < |idx| ==> idx[k] < |free| && free0[idx[k]] && !free[idx[k]])
    && (forall k, l :: 0 <= k < l < |idx| ==> idx[k] != idx[l])
    && (forall d: nat :: d < |free| && d !in idx ==> free[d] == free0[d])
  }

  predicate IsBusy(busy: map<nat, bool>, b: nat) { b in busy && busy[b] }

  /** b->disk is 1 exactly while the request for b has not been consumed, and b has one request. */
  ghost predicate BuffersOk(fly: map<nat, Chain>, busy: map<nat, bool>) {
    && (forall n {:trigger BusyOk(fly, busy, n)} :: n in fly ==> BusyOk(fly, busy, n))
    && (forall n, k {:trigger SameBuffer(fly, n, k)} :: n in fly && k in fly && SameBuffer(fly, n, k) ==> n == k)
  }

  ghost predicate BusyOk(fly: map<nat, Chain>, busy: map<nat, bool>, n: nat)
    requires n in fly
  {
    IsBusy(busy, fly[n].b) <==> !fly[n].stage.Consumed?
  }

  ghost predicate SameBuffer(fly: map<nat, Chain>, n: nat, k: nat)
    requires n in fly && k in fly
  {
    fly[n].b == fly[k].b
  }

  lemma BuffersChange(fly: map<nat, Chain>, busy: map<nat, bool>, n: nat, c: Chain, busy': map<nat, bool>)
    requires BuffersOk(fly, busy) && busy' == busy[c.b := !c.stage.Consumed?]
    requires forall k :: k in fly && k != n ==> fly[k].b != c.b
    ensures BuffersOk(fly[n := c], busy')
  {
    var fly' := fly[n := c];
    forall k | k in fly' ensures BusyOk(fly', busy', k) {
      assert k != n ==> BusyOk(fly, busy, k);
    }
    forall k, l | k in fly' && l in fly' && SameBuffer(fly', k, l) ensures k == l {
      assert k != n && l != n ==> SameBuffer(fly, k, l);
    }
  }

  /** A chain that moves on keeps its buffer. */
  lemma BuffersMove(fly: map<nat, Chain>, busy: map<nat, bool>, n: nat, c: Chain, busy': map<nat, bool>)
    requires BuffersOk(fly, busy) && n in fly && c.b == fly[n].b && busy' == busy[c.b := !c.stage.Consumed?]
    ensures BuffersOk(fly[n := c], busy')
  {
    forall k | k in fly && k != n ensures fly[k].b != c.b {
      assert !SameBuffer(fly, k, n);
    }
    BuffersChange(fly, busy, n, c, busy');
  }

  /** ... and if it was not consumed and is not now, its buffer stays busy. */
  lemma BuffersStay(fly: map<nat, Chain>, busy: map<nat, bool>, n: nat, c: Chain)
    requires BuffersOk(fly, busy) && n in fly && c.b == fly[n].b && !c.stage.Consumed? && !fly[n].stage.Consumed?
    ensures BuffersOk(fly[n := c], busy)
  {
    assert BusyOk(fly, busy, n);
    assert busy[c.b := true] == busy;
    BuffersMove(fly, busy, n, c, busy);
  }

  lemma BuffersDrop(fly: map<nat, Chain>, busy: map<nat, bool>, n: nat)
    requires BuffersOk(fly, busy)
    ensures BuffersOk(fly - {n}, busy)
  {
    var fly' := fly - {n};
    forall k | k in fly' ensures BusyOk(fly', busy, k) {
      assert BusyOk(fly, busy, k);
    }
    forall k, l | k in fly' && l in fly' && SameBuffer(fly', k, l) ensures k == l {
      assert SameBuffer(fly, k, l);
    }
  }

  /** Some completed chains have been consumed, from f to f'. */
  ghost predicate Consuming(f: map<nat, Chain>, f': map<nat, Chain>) {
    f'.Keys == f.Keys && forall n {:trigger MovedOn(f, f', n)} :: n in f ==> MovedOn(f, f', n)
  }

  ghost predicate MovedOn(f: map<nat, Chain>, f': map<nat, Chain>, n: nat)
    requires n in f
  {
    n in f' && (f'[n] == f[n] || (f[n].stage.Completed? && f'[n] == f[n].(stage := Consumed)))
  }

  lemma ConsumingMore(f: map<nat, Chain>, f1: map<nat, Chain>, f2: map<nat, Chain>, n: nat)
    requires Consuming(f, f1) && n in f1 && f1[n].stage.Completed? && f2 == f1[n := f1[n].(stage := Consumed)]
    ensures Consuming(f, f2)
  {
    forall k | k in f ensures MovedOn(f, f2, k) {
      assert MovedOn(f, f1, k);
    }
  }

  class Disk {
    var free: seq<bool>
    var desc: seq<Desc>
    var info: seq<Info>
    var ops: seq<Op>
    var availRing: seq<nat>
    var availIdx: nat
    var usedRing: seq<nat>
    var deviceUsedIdx: nat            // disk.used->idx
    var usedIdx: nat                  // disk.used_idx
    var busy: map<nat, bool>          // b->disk
    var deviceAvailIdx: nat           // how far the device has read the available ring
    ghost var fly: map<nat, Chain>
    ghost var owner: seq<Owner>
    ghost var done: seq<nat>
    ghost var submitted: nat
    ghost var taken: nat
    ghost var consumed: nat

    ghost function Now(): Queue
      reads this
    {
      Queue(free, desc, info, ops, availRing, usedRing, fly, owner, done, submitted, taken, consumed)
    }

    ghost predicate Busy(b: nat)
      reads this
    {
      IsBusy(busy, b)
    }

    ghost predicate Valid()
      reads this
    {
      && QueueOk(Now())
      && availIdx == submitted % WRAP && deviceAvailIdx == taken % WRAP
      && deviceUsedIdx == |done| % WRAP && usedIdx == consumed % WRAP
      && BuffersOk(fly, busy)
    }

    constructor ()
      ensures Valid() && fly == map[] && forall d :: 0 <= d < NUM ==> free[d]
    {
      free := seq(NUM, _ => true);
      desc := seq(NUM, _ => NoDesc());
      info := seq(NUM, _ => Info(0, 0));
      ops := seq(NUM, _ => Op(false, 0));
      availRing := seq(NUM, _ => 0);
      usedRing := seq(NUM, _ => 0);
      availIdx, deviceUsedIdx, usedIdx, deviceAvailIdx := 0, 0, 0, 0;
      busy, fly, done := map[], map[], [];
      owner := seq(NUM, _ => Nobody);
      submitted, taken, consumed := 0, 0, 0;
    }

    /** alloc_desc(): the first free descriptor; NUM stands for -1. */
    method AllocDesc() returns (i: nat)
      requires |free| == NUM
      modifies `free
      ensures i == NUM <==> forall d :: 0 <= d < NUM ==> !old(free)[d]
      ensures i == NUM ==> free == old(free) && CountFree(free) == 0
      ensures i != NUM ==> i < NUM && old(free)[i] && free == old(free)[i := false]
      ensures i != NUM ==> CountFree(free) == CountFree(old(free)) - 1
    {
      i := 0;
      while i < NUM
        invariant 0 <= i <= NUM && free == old(free) && forall d :: 0 <= d < i ==> !free[d]
      {
        if free[i] {
          CountTaken(free, i);
          free := free[i := false];
          return;
        }
        i := i + 1;
      }
      NoneFree(free);
    }

    /** free_desc() */
    method FreeDesc(i: nat)
      requires |free| == |desc| == NUM && i < NUM && !free[i]
      modifies `free, `desc
      ensures free == old(free)[i := true] && desc == old(desc)[i := NoDesc()]
    {
      desc := desc[i := NoDesc()];
      free := free[i := true];
    }

    /** alloc3_desc(): three free descriptors, or none taken when there are not three. */
    method Alloc3Desc() returns (ok: bool, idx: seq<nat>)
      requires |free| == |desc| == NUM
      modifies `free, `desc
      ensures ok <==> CountFree(old(free)) >= 3
      ensures !ok ==> free == old(free)
      ensures |desc| == NUM && forall d :: 0 <= d < NUM && !old(free)[d] ==> desc[d] == old(desc)[d]
      ensures ok ==> |idx| == 3 && desc == old(desc) && (forall k :: 0 <= k < 3 ==> idx[k] < NUM && old(free)[idx[k]])
      ensures ok ==> idx[0] != idx[1] && idx[0] != idx[2] && idx[1] != idx[2]
      ensures ok ==> free == Put3(old(free), idx[0], idx[1], idx[2], false, false, false)
    {
      idx := [];
      var i := 0;
      while i < 3
        invariant 0 <= i <= 3 && |idx| == i && |free| == NUM && desc == old(desc)
        invariant Claimed(old(free), free, idx) && CountFree(free) == CountFree(old(free)) - i
      {
        var d := AllocDesc();
        if d == NUM {
          GiveBack(idx, old(free));
          return false, [];
        }
        idx := idx + [d];
        i := i + 1;
      }
      assert free == Put3(old(free), idx[0], idx[1], idx[2], false, false, false);
      ok := true;
    }

    /** The inner loop of alloc3_desc(), when a descriptor is missing. */
    method GiveBack(idx: seq<nat>, ghost free0: seq<bool>)
      requires |free| == |desc| == |free0| == NUM && Claimed(free0, free, idx)
      modifies `free, `desc
      ensures free == free0 && |desc| == NUM
      ensures forall d :: 0 <= d < NUM && !free0[d] ==> desc[d] == old(desc)[d]
    {
      var j := 0;
      while j < |idx|
        invariant 0 <= j <= |idx| && |free| == |desc| == NUM && Claimed(free0, free, idx[j..])
        invariant forall d :: 0 <= d < NUM && !free0[d] ==> desc[d] == old(desc)[d]
      {
        assert idx[j] == idx[j..][0] && idx[j..][1..] == idx[j + 1..];
        FreeDesc(idx[j]);
        j := j + 1;
      }
      assert idx[j..] == [];
    }

    /** virtio_disk_rw() up to its wait: false means it goes to sleep for descriptors. */
    method Start(b: nat, write: bool, blockno: nat) returns (ok: bool)
      requires Valid() && forall n :: n in fly ==> fly[n].b != b
      modifies this
      ensures Valid() && done == old(done) && consumed == old(consumed) && taken == old(taken)
      ensures ok <==> CountFree(old(free)) >= 3
      ensures !ok ==> fly == old(fly) && free == old(free)
      ensures ok ==> submitted == old(submitted) + 1 && old(submitted) !in old(fly) && old(submitted) in fly
      ensures ok ==> fly == old(fly)[old(submitted) := fly[old(submitted)]] && Busy(b)
      ensures ok ==> var c := fly[old(submitted)]; c.b == b && c.op == Op(write, blockno * 2) && c.stage.Queued?
    {
      var idx;
      ok, idx := Alloc3Desc();
      if !ok {
        FreeDescsChange(old(Now()), Now());
        return;
      }
      ghost var n, c := submitted, Chain(idx[0], idx[1], idx[2], b, Op(write, blockno * 2), Queued, 0);
      SubmitOk(old(Now()), idx[0], idx[1], idx[2], b, c.op);
      BuffersChange(fly, busy, n, c, busy[b := true]);
      Publish(idx[0], idx[1], idx[2], b, Op(write, blockno * 2), old(Now()));
    }

    /** Formatting the descriptors and telling the device about the chain. */
    method Publish(h: nat, m: nat, t: nat, b: nat, op: Op, ghost q: Queue)
      requires Shape(q) && h < NUM && m < NUM && t < NUM && h != m && h != t && m != t
      requires Now() == q.(free := Put3(q.free, h, m, t, false, false, false)) && availIdx == submitted % WRAP
      modifies `desc, `info, `ops, `availRing, `availIdx, `busy, `fly, `owner, `submitted
      ensures Now() == Submit(q, h, m, t, b, op) && availIdx == submitted % WRAP && busy == old(busy)[b := true]
    {
      Format(h, m, t, b, op);
      Announce(h, submitted);
      fly, owner, submitted :=
        fly[submitted := Chain(h, m, t, b, op, Queued, 0)],
        Put3(owner, h, m, t, By(submitted), By(submitted), By(submitted)), submitted + 1;
    }

    method Format(h: nat, m: nat, t: nat, b: nat, op: Op)
      requires |desc| == |info| == |ops| == NUM && h < NUM && m < NUM && t < NUM && h != m && h != t && m != t
      modifies `desc, `info, `ops, `busy
      ensures desc == Formatted(old(desc), h, m, t, b, op) && info == old(info)[h := Info(b, 0xff)]
      ensures ops == old(ops)[h := op] && busy == old(busy)[b := true]
    {
      ops := ops[h := op];
      desc := desc[h := Desc(Header(h), false, true, m)];
      desc := desc[m := Desc(DataOf(b), !op.write, true, t)];
      desc := desc[t := Desc(StatusOf(h), true, false, 0)];
      busy := busy[b := true];
      info := info[h := Info(b, 0xff)];
    }

    /** The next entry of the available ring. */
    method Announce(h: nat, ghost k: nat)
      requires |availRing| == NUM && availIdx == k % WRAP
      modifies `availRing, `availIdx
      ensures availRing == old(availRing)[k % NUM := h] && availIdx == (k + 1) % WRAP
    {
      WrapSlot(k);
      availRing := availRing[availIdx % NUM := h];
      availIdx := (availIdx + 1) % WRAP;
    }

    /** What the device finds in the chain that starts at head. */
    method ReadRequest(head: nat, ghost n: nat) returns (op: Op, b: nat)
      requires QueueOk(Now()) && n in fly && head == fly[n].h
      ensures op == fly[n].op && b == fly[n].b
    {
      assert ChainOk(Now(), n);
      op := ops[head];
      b := desc[desc[head].next].addr.b;
    }

    /** The device reads the next available entry and the request its chain describes. */
    method DeviceTake() returns (ok: bool, head: nat, op: Op, b: nat)
      requires Valid()
      modifies `deviceAvailIdx, `fly, `taken
      ensures Valid() && (ok <==> old(taken) < submitted)
      ensures ok ==> old(taken) in old(fly) && taken == old(taken) + 1
      ensures ok ==>
        var c := old(fly)[old(taken)];
        head == c.h && op == c.op && b == c.b && fly == old(fly)[old(taken) := c.(stage := Taken)]
      ensures !ok ==> fly == old(fly) && taken == old(taken)
    {
      InFlight(Now());
      if deviceAvailIdx == availIdx {
        return false, 0, Op(false, 0), 0;
      }
      TakeOk(Now());
      WrapSlot(taken);
      head := availRing[deviceAvailIdx % NUM];
      op, b := ReadRequest(head, taken);
      BuffersStay(fly, busy, taken, fly[taken].(stage := Taken));
      fly := fly[taken := fly[taken].(stage := Taken)];
      taken := taken + 1;
      deviceAvailIdx := (deviceAvailIdx + 1) % WRAP;
      ok := true;
      assert Now() == Take(old(Now()));
    }

    /** The device completes any chain it has taken. */
    method DeviceComplete(head: nat, ghost n: nat)
      requires Valid() && n in fly && fly[n].stage.Taken? && fly[n].h == head
      modifies `info, `usedRing, `deviceUsedIdx, `fly, `done
      ensures Valid() && done == old(done) + [n]
      ensures fly == old(fly)[n := old(fly)[n].(stage := Completed, u := |old(done)|)]
    {
      CompleteOk(Now(), n);
      WrapSlot(|done|);
      info := info[head := info[head].(status := 0)];
      usedRing := usedRing[deviceUsedIdx % NUM := head];
      deviceUsedIdx := (deviceUsedIdx + 1) % WRAP;
      BuffersStay(fly, busy, n, fly[n].(stage := Completed, u := |done|));
      fly := fly[n := fly[n].(stage := Completed, u := |done|)];
      done := done + [n];
      assert Now() == Complete(old(Now()), n);
    }

    /** One round of virtio_disk_intr(): the next completion, and the buffer that issued it. */
    method IntrOne()
      requires Valid() && consumed < |done|
      modifies `busy, `usedIdx, `fly, `consumed
      ensures Valid() && consumed == old(consumed) + 1
      ensures done[old(consumed)] in old(fly) && old(fly)[done[old(consumed)]].stage.Completed?
      ensures fly == old(fly)[done[old(consumed)] := old(fly)[done[old(consumed)]].(stage := Consumed)]
      ensures busy == old(busy)[old(fly)[done[old(consumed)]].b := false]
    {
      ConsumeOk(Now());
      WrapSlot(consumed);
      var id := usedRing[usedIdx % NUM];
      assert info[id].status == 0;  // the panic "virtio_disk_intr status" is unreachable
      var b := info[id].b;
      ghost var n := done[consumed];
      BuffersMove(fly, busy, n, fly[n].(stage := Consumed), busy[b := false]);
      busy := busy[b := false];
      fly := fly[n := fly[n].(stage := Consumed)];
      consumed := consumed + 1;
      usedIdx := (usedIdx + 1) % WRAP;
      assert Now() == Consume(old(Now()));
    }

    /** virtio_disk_intr(): every completion is consumed, once. */
    method Intr()
      requires Valid()
      modifies `busy, `usedIdx, `fly, `consumed
      ensures Valid() && consumed == |done| && fly.Keys == old(fly).Keys
      ensures forall n :: n in fly ==> fly[n].b == old(fly)[n].b
      ensures forall n :: n in fly ==>
        fly[n].stage == if old(fly)[n].stage.Completed? then Consumed else old(fly)[n].stage
    {
      InFlight(Now());
      while usedIdx != deviceUsedIdx
        invariant Valid() && old(consumed) <= consumed <= |done| && |done| - consumed < WRAP
        invariant Consuming(old(fly), fly)
        decreases |done| - consumed
      {
        ghost var fly1 := fly;
        SameIndex(consumed, |done|);
        IntrOne();
        ConsumingMore(old(fly), fly1, fly, done[consumed - 1]);
      }
      SameIndex(consumed, |done|);
      NoneLeft(Now());
      AllConsumed(old(fly), Now());
    }

    /** The end of virtio_disk_rw(), once b->disk is 0. */
    method Finish(head: nat, ghost n: nat)
      requires Valid() && n in fly && fly[n].h == head && !Busy(fly[n].b)
      modifies `free, `desc, `info, `fly, `owner
      ensures Valid() && fly == old(fly) - {n}
      ensures forall d :: 0 <= d < NUM ==>
                (free[d] <==> old(free)[d] || d == old(fly)[n].h || d == old(fly)[n].m || d == old(fly)[n].t)
    {
      assert BusyOk(fly, busy, n);
      ReleaseOk(Now(), n);
      assert DescOk(Now(), fly[n].h) && DescOk(Now(), fly[n].m) && DescOk(Now(), fly[n].t);
      BuffersDrop(fly, busy, n);
      Retire(head, n, fly[n]);
    }

    method Retire(head: nat, ghost n: nat, ghost c: Chain)
      requires Shape(Now()) && n in fly && fly[n] == c && head == c.h
      requires c.h < NUM && c.m < NUM && c.t < NUM && c.h != c.m && c.h != c.t && c.m != c.t
      requires !free[c.h] && !free[c.m] && !free[c.t]
      requires desc[c.h].hasNext && desc[c.h].next == c.m && desc[c.m].hasNext && desc[c.m].next == c.t
      requires !desc[c.t].hasNext
      modifies `free, `desc, `info, `fly, `owner
      ensures Now() == Release(old(Now()), n)
    {
      info := info[head := info[head].(b := 0)];
      FreeChain(head, c);
      owner := Put3(owner, c.h, c.m, c.t, Nobody, Nobody, Nobody);
      fly := fly - {n};
    }

    /** free_chain(): follows the chain and frees its three descriptors. */
    method FreeChain(head: nat, ghost c: Chain)
      requires |free| == |desc| == NUM && c.h < NUM && c.m < NUM && c.t < NUM && c.h != c.m && c.h != c.t && c.m != c.t
      requires head == c.h && !free[c.h] && !free[c.m] && !free[c.t]
      requires desc[c.h].hasNext && desc[c.h].next == c.m && desc[c.m].hasNext && desc[c.m].next == c.t
      requires !desc[c.t].hasNext
      modifies `free, `desc
      ensures free == Put3(old(free), c.h, c.m, c.t, true, true, true)
      ensures desc == Put3(old(desc), c.h, c.m, c.t, NoDesc(), NoDesc(), NoDesc())
    {
      var i := head;
      ghost var k := 0;
      while true
        invariant 0 <= k <= 2 && i == (if k == 0 then c.h else if k == 1 then c.m else c.t)
        invariant k == 0 ==> free == old(free) && desc == old(desc)
        invariant k == 1 ==> free == old(free)[c.h := true] && desc == old(desc)[c.h := NoDesc()]
        invariant k == 2 ==> free == old(free)[c.h := true][c.m := true]
        invariant k == 2 ==> desc == old(desc)[c.h := NoDesc()][c.m := NoDesc()]
        decreases 2 - k
      {
        var d := desc[i];
        FreeDesc(i);
        if !d.hasNext {
          break;
        }
        i := d.next;
        k := k + 1;
      }
    }
  }

  /** A 16-bit index selects the same slot as the count it stands for, and steps with it. */
  lemma WrapSlot(k: nat)
    ensures (k % WRAP) % NUM == k % NUM && (k % WRAP + 1) % WRAP == (k + 1) % WRAP
  {
    var q := k / WRAP;
    assert k == q * WRAP + k % WRAP;
    assert k == (q * 0x2000) * NUM + k % WRAP;
  }

  lemma SameIndex(a: nat, b: nat)
    requires a <= b < a + WRAP
    ensures a % WRAP == b % WRAP <==> a == b
  {}

  /** Wrapped indices differ exactly if the counts do. */
  lemma InFlight(q: Queue)
    requires QueueOk(q)
    ensures q.submitted - q.taken <= NUM && |q.done| - q.consumed <= NUM
    ensures q.taken % WRAP == q.submitted % WRAP <==> q.taken == q.submitted
    ensures q.consumed % WRAP == |q.done| % WRAP <==> q.consumed == |q.done|
  {
    if q.taken < q.submitted {
      var s := QueuedHeads(q, q.submitted - 1);
      assert AvailOk(q, q.submitted - 1) && ChainOk(q, q.submitted - 1);
      FewDescriptors(s, q.fly[q.submitted - 1].h);
    }
    if q.consumed < |q.done| {
      var s := CompletedHeads(q, |q.done| - 1);
      assert UsedOk(q, |q.done| - 1) && ChainOk(q, q.done[|q.done| - 1]);
      FewDescriptors(s, q.fly[q.done[|q.done| - 1]].h);
    }
  }

  lemma NoneLeft(q: Queue)
    requires QueueOk(q) && q.consumed == |q.done|
    ensures forall n :: n in q.fly ==> !q.fly[n].stage.Completed?
  {
    forall n | n in q.fly ensures !q.fly[n].stage.Completed? {
      assert ChainOk(q, n);
    }
  }

  lemma AllConsumed(f: map<nat, Chain>, q: Queue)
    requires Consuming(f, q.fly) && forall n :: n in q.fly ==> !q.fly[n].stage.Completed?
    ensures forall n :: n in q.fly ==> n in f && q.fly[n].b == f[n].b
    ensures forall n :: n in q.fly ==> q.fly[n].stage == if f[n].stage.Completed? then Consumed else f[n].stage
  {
    forall n | n in q.fly
      ensures n in f && q.fly[n].b == f[n].b
      ensures q.fly[n].stage == if f[n].stage.Completed? then Consumed else f[n].stage
    {
      assert n in f.Keys && MovedOn(f, q.fly, n);
    }
  }

  /** What free descriptors hold does not matter. */
  lemma FreeDescsChange(q: Queue, q': Queue)
    requires QueueOk(q) && q' == q.(desc := q'.desc) && |q'.desc| == NUM
    requires forall d :: 0 <= d < NUM && !q.free[d] ==> q'.desc[d] == q.desc[d]
    ensures QueueOk(q')
  {
    forall n | n in q'.fly ensures ChainOk(q', n) {
      assert ChainOk(q, n);
      var c := q.fly[n];
      assert DescOk(q, c.h) && DescOk(q, c.m) && DescOk(q, c.t);
    }
    forall d: nat | d < NUM ensures DescOk(q', d) {
      assert DescOk(q, d);
    }
    forall k: nat | q'.taken <= k < q'.submitted ensures AvailOk(q', k) {
      assert AvailOk(q, k);
    }
    forall k: nat | q'.consumed <= k < |q'.done| ensures UsedOk(q', k) {
      assert UsedOk(q, k);
    }
  }
}
