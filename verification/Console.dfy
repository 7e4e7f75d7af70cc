/**
 kernel/console.c: the input ring with its read, write and edit indices, 32-bit and wrapping.
 `rcount`, Writes() and Edits() are the indices as counts that never wrap.
*/
module Console {

  const INPUT_BUF: nat := 128
  const WRAP: nat := 0x1_0000_0000
  const CTRL_D: int := 4
  const CTRL_H: int := 8
  const NEWLINE: int := 10
  const RETURN: int := 13
  const CTRL_P: int := 16
  const CTRL_U: int := 21
  const DELETE: int := 0x7f

  datatype Outcome = Returned | Asleep | Failed

  /** What has been typed: committed for readers, or still pending. */
  datatype Typed = Typed(committed: seq<int>, pending: seq<int>)

  /** What a key does to it, with `rcount` bytes consumed. */
  function Keyed(t: Typed, rcount: nat, c: int): Typed {
    if c == CTRL_P then t
    else if c == CTRL_U then Typed(t.committed, [])
    else if c == CTRL_H || c == DELETE then
      Typed(t.committed, if t.pending == [] then [] else t.pending[..|t.pending| - 1])
    else if c == 0 || |t.committed| + |t.pending| == rcount + INPUT_BUF then t
    else
      var line := t.pending + [if c == RETURN then NEWLINE else c];
      if c == RETURN || c == NEWLINE || c == CTRL_D || |t.committed| + |line| == rcount + INPUT_BUF
      then Typed(t.committed + line, []) else Typed(t.committed, line)
  }

  class Cons {
    var buf: seq<int>
    var r: nat
    var w: nat
    var e: nat
    ghost var rcount: nat             // bytes consumed
    ghost var committed: seq<int>    // every byte ever committed, in order
    ghost var pending: seq<int>      // typed but not committed

    ghost function Now(): Typed
      reads this
    {
      Typed(committed, pending)
    }

    ghost function Writes(): nat
      reads this
    {
      |committed|
    }

    ghost function Edits(): nat
      reads this
    {
      |committed| + |pending|
    }

    ghost predicate Valid()
      reads this
    {
      && |buf| == INPUT_BUF && r == rcount % WRAP && w == Writes() % WRAP && e == Edits() % WRAP
      && rcount <= Writes() && Edits() <= rcount + INPUT_BUF
      && (Edits() == rcount + INPUT_BUF ==> pending == [])
      && (forall k :: rcount <= k < Edits() ==> buf[k % INPUT_BUF] == (committed + pending)[k])
      && (forall k :: 0 <= k < |pending| ==> pending[k] != NEWLINE && pending[k] != CTRL_D)
    }

    constructor ()
      ensures Valid() && committed == [] && pending == [] && rcount == 0
    {
      buf := seq(INPUT_BUF, _ => 0);
      r, w, e, rcount := 0, 0, 0, 0;
      committed, pending := [], [];
    }

    method Erase()
      requires Valid() && pending != []
      modifies `e, `pending
      ensures Valid() && pending == old(pending)[..|old(pending)| - 1]
    {
      Back(Edits());
      e := (e + WRAP - 1) % WRAP;
      pending := pending[..|pending| - 1];
    }

    /** consoleintr() for the keys that edit. */
    method Edit(c: int)
      requires Valid() && (c == CTRL_U || c == CTRL_H || c == DELETE)
      modifies `e, `pending
      ensures Valid() && Now() == Keyed(old(Now()), rcount, c)
    {
      Apart(Writes(), Edits());
      if c == CTRL_U {
        while e != w && buf[(e + WRAP - 1) % WRAP % INPUT_BUF] != NEWLINE
          invariant Valid()
          decreases |pending|
        {
          Apart(Writes(), Edits());
          Erase();
        }
        Apart(Writes(), Edits());
        LastPending();
      } else if e != w {
        Erase();
      }
    }

    /** The loop of ^U never stops at a newline: none is pending. */
    lemma LastPending()
      requires Valid()
      ensures pending != [] ==> e != w && buf[(e + WRAP - 1) % WRAP % INPUT_BUF] != NEWLINE
    {
      Apart(Writes(), Edits());
      if pending != [] {
        Back(Edits());
        assert buf[(Edits() - 1) % INPUT_BUF] == (committed + pending)[Edits() - 1] == pending[|pending| - 1];
      }
    }

    /** consoleintr() for any other key. */
    method Type(c0: int)
      requires Valid() && 0 <= c0 < 256 && c0 != CTRL_P && c0 != CTRL_U && c0 != CTRL_H && c0 != DELETE
      modifies `buf, `w, `e, `committed, `pending
      ensures Valid() && Now() == Keyed(old(Now()), rcount, c0)
    {
      Apart(rcount, Edits());
      if c0 != 0 && (e + WRAP - r) % WRAP < INPUT_BUF {
        var c := if c0 == RETURN then NEWLINE else c0;
        Store(c);
        Apart(rcount, Edits());
        if c == NEWLINE || c == CTRL_D || e == (r + INPUT_BUF) % WRAP {
          w := e;
          committed, pending := committed + pending, [];
        }
      }
    }

    /** Storing a character; the caller commits it if it must not stay pending. */
    method Store(c: int)
      requires Valid() && Edits() < rcount + INPUT_BUF
      modifies `buf, `e, `pending
      ensures pending == old(pending) + [c] && |buf| == INPUT_BUF && e == Edits() % WRAP
      ensures forall k :: rcount <= k < Edits() ==> buf[k % INPUT_BUF] == (committed + pending)[k]
    {
      Slot(Edits());
      FreeSlot(rcount, Edits());
      buf := buf[e % INPUT_BUF := c];
      e := (e + 1) % WRAP;
      assert forall k :: 0 <= k < Edits() ==> (committed + (pending + [c]))[k] == (committed + pending)[k];
      pending := pending + [c];
    }

    /** consoleintr(): editing never touches committed input. */
    method Interrupt(c: int)
      requires Valid() && 0 <= c < 256
      modifies this
      ensures Valid() && Now() == Keyed(old(Now()), rcount, c)
      ensures old(committed) <= committed && rcount == old(rcount)
    {
      if c == CTRL_P {
        // procdump()
      } else if c == CTRL_U || c == CTRL_H || c == DELETE {
        Edit(c);
      } else {
        Type(c);
      }
    }

    /**
     consoleread() until it sleeps or returns, with n of target bytes still wanted.  What it
     delivers is the next stretch of the committed stream, cut after a newline and before ^D.
    */
    method Read(target: nat, n0: nat, killed: bool, fault: nat) returns (out: seq<int>, n: nat, o: Outcome)
      requires Valid() && n0 <= target
      modifies `r, `rcount
      ensures Valid() && n + |out| == n0 && old(rcount) <= rcount <= Writes()
      ensures |out| <= Writes() - old(rcount) && out == committed[old(rcount)..old(rcount) + |out|]
      ensures forall k :: 0 <= k < |out| ==> out[k] != CTRL_D && (k < |out| - 1 ==> out[k] != NEWLINE)
      ensures !o.Returned? ==> rcount == Writes() == old(rcount) + |out| && n > 0 && (o.Failed? <==> killed)
      ensures o.Returned? ==>
                (rcount == old(rcount) + |out|
                 || (rcount == old(rcount) + |out| + 1
                     && ((committed[rcount - 1] == CTRL_D && n == target) || |out| == fault)))
      ensures o.Returned? && rcount == old(rcount) + |out| ==>
                || n == 0 || (out != [] && out[|out| - 1] == NEWLINE)
                || (rcount < Writes() && committed[rcount] == CTRL_D && n < target)
    {
      n, out := n0, [];
      while n > 0
        invariant Valid() && 0 <= n && n + |out| == n0 && old(rcount) + |out| == rcount
        invariant out == committed[old(rcount)..rcount]
        invariant forall k :: 0 <= k < |out| ==> out[k] != CTRL_D && out[k] != NEWLINE
      {
        Apart(rcount, Writes());
        if r == w {
          return out, n, if killed then Failed else Asleep;
        }
        var c := Next();
        if c == CTRL_D {
          if n < target {
            PutBack();
          }
          break;
        }
        if |out| == fault {
          break;
        }
        out, n := out + [c], n - 1;
        if c == NEWLINE {
          break;
        }
      }
      o := Returned;
    }

    method Next() returns (c: int)
      requires Valid() && rcount < Writes()
      modifies `r, `rcount
      ensures Valid() && rcount == old(rcount) + 1 && c == committed[old(rcount)]
    {
      Slot(rcount);
      assert buf[rcount % INPUT_BUF] == (committed + pending)[rcount];
      c := buf[r % INPUT_BUF];
      r := (r + 1) % WRAP;
      rcount := rcount + 1;
    }

    /** cons.r-- after Next(), in the same critical section. */
    method PutBack()
      requires Valid() && rcount > 0 && Edits() < rcount + INPUT_BUF
      requires buf[(rcount - 1) % INPUT_BUF] == (committed + pending)[rcount - 1]
      requires Edits() == rcount - 1 + INPUT_BUF ==> pending == []
      modifies `r, `rcount
      ensures Valid() && rcount == old(rcount) - 1
    {
      Back(rcount);
      r := (r + WRAP - 1) % WRAP;
      rcount := rcount - 1;
    }
  }

  /** Stepping a wrapped index back. */
  lemma Back(k: nat)
    requires k > 0
    ensures (k % WRAP + WRAP - 1) % WRAP == (k - 1) % WRAP
    ensures (k % WRAP + WRAP - 1) % WRAP % INPUT_BUF == (k - 1) % INPUT_BUF
  {
    assert (k % WRAP + WRAP - 1) % WRAP == (k - 1) % WRAP;
    Slot(k - 1);
  }

  /** Wrapped indices at most INPUT_BUF apart tell their counts apart. */
  lemma Apart(a: nat, b: nat)
    requires a <= b <= a + INPUT_BUF
    ensures a % WRAP == b % WRAP <==> a == b
    ensures (b % WRAP + WRAP - a % WRAP) % WRAP == b - a
    ensures b % WRAP == (a % WRAP + INPUT_BUF) % WRAP <==> b == a + INPUT_BUF
  {}

  /** A wrapped index selects the slot of its count, and steps with it. */
  lemma Slot(k: nat)
    ensures (k % WRAP) % INPUT_BUF == k % INPUT_BUF && (k % WRAP + 1) % WRAP == (k + 1) % WRAP
  {}

  lemma FreeSlot(a: nat, b: nat)
    requires a <= b < a + INPUT_BUF
    ensures forall k :: a <= k < b ==> k % INPUT_BUF != b % INPUT_BUF
  {}
}
