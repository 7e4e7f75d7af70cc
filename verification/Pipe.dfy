/**
 kernel/pipe.c: a ring of bytes between two 32-bit counters that wrap.  A method runs until the
 caller sleeps or returns, so any interleaving of readers and writers is a sequence of calls.
 `fault` is the offset at which copying from or to user memory fails.
*/
module Pipe {

  const PIPESIZE: nat := 512
  const WRAP: nat := 0x1_0000_0000

  datatype Outcome = Returned | Asleep | Failed

  class PipeBuffer {
    var data: seq<int>
    var nread: nat
    var nwrite: nat
    var readopen: bool
    var writeopen: bool
    ghost var written: seq<int>   // every byte ever written
    ghost var taken: seq<int>     // every byte ever taken out

    ghost predicate Valid()
      reads this
    {
      && |data| == PIPESIZE && nread == |taken| % WRAP && nwrite == |written| % WRAP
      && taken <= written && |written| <= |taken| + PIPESIZE
      && forall k :: |taken| <= k < |written| ==> data[k % PIPESIZE] == written[k]
    }

    /** pipealloc() */
    constructor ()
      ensures Valid() && written == [] && taken == [] && readopen && writeopen
    {
      data := seq(PIPESIZE, _ => 0);
      nread, nwrite, readopen, writeopen := 0, 0, true, true;
      written, taken := [], [];
    }

    /** pipeclose() */
    method Close(writable: bool)
      requires Valid()
      modifies `readopen, `writeopen
      ensures Valid() && writeopen == (old(writeopen) && !writable) && readopen == (old(readopen) && writable)
    {
      if writable {
        writeopen := false;
      } else {
        readopen := false;
      }
    }

    /** The test for a full pipe, on wrapped counters. */
    method Full() returns (b: bool)
      requires Valid()
      ensures b <==> |written| == |taken| + PIPESIZE
    {
      Counters(|taken|, |written|);
      b := nwrite == (nread + PIPESIZE) % WRAP;
    }

    method Empty() returns (b: bool)
      requires Valid()
      ensures b <==> |written| == |taken|
    {
      Counters(|taken|, |written|);
      b := nread == nwrite;
    }

    method PutByte(ch: int)
      requires Valid() && |written| < |taken| + PIPESIZE
      modifies `data, `nwrite, `written
      ensures Valid() && written == old(written) + [ch]
    {
      Slot(|written|);
      FreeSlot(|taken|, |written|);
      data := data[nwrite % PIPESIZE := ch];
      nwrite := (nwrite + 1) % WRAP;
      written := written + [ch];
    }

    method GetByte() returns (ch: int)
      requires Valid() && |taken| < |written|
      modifies `nread, `taken
      ensures Valid() && ch == written[|old(taken)|] && taken == old(taken) + [ch]
    {
      Slot(|taken|);
      ch := data[nread % PIPESIZE];
      nread := (nread + 1) % WRAP;
      taken := taken + [ch];
    }

    /** pipewrite() of src from byte i0 on. */
    method Write(src: seq<int>, i0: nat, killed: bool, fault: nat) returns (i: nat, r: Outcome)
      requires Valid() && i0 <= |src|
      modifies `data, `nwrite, `written
      ensures Valid() && i0 <= i <= |src| && written == old(written) + src[i0..i]
      ensures r.Asleep? ==> i < |src| && |written| == |taken| + PIPESIZE && readopen && !killed
      ensures r.Failed? <==> i0 < |src| && (!readopen || killed)
      ensures r.Failed? ==> i == i0
      ensures r.Returned? ==> i == |src| || i == fault
    {
      i := i0;
      while i < |src|
        invariant Valid() && i0 <= i <= |src| && written == old(written) + src[i0..i]
        invariant i > i0 ==> readopen && !killed
      {
        if !readopen || killed {
          return i, Failed;
        }
        var full := Full();
        if full {
          return i, Asleep;
        }
        if i == fault {
          break;
        }
        PutByte(src[i]);
        i := i + 1;
      }
      r := Returned;
    }

    /** piperead() of up to n bytes; the byte at which copying out faults is lost. */
    method Read(n: nat, killed: bool, fault: nat) returns (bytes: seq<int>, r: Outcome)
      requires Valid()
      modifies `nread, `taken
      ensures Valid() && |bytes| <= n
      ensures r.Asleep? <==> |old(taken)| == |written| && writeopen && !killed
      ensures r.Failed? <==> |old(taken)| == |written| && writeopen && killed
      ensures !r.Returned? ==> bytes == [] && taken == old(taken)
      ensures old(taken) + bytes <= taken <= written
      ensures |taken| == |old(taken)| + |bytes|
                       + (if |bytes| == fault < n && |old(taken)| + fault < |written| then 1 else 0)
      ensures r.Returned? ==> |bytes| == n || |bytes| == fault || |taken| == |written|
    {
      bytes := [];
      var empty := Empty();
      if empty && writeopen {
        return [], if killed then Failed else Asleep;
      }
      var i := 0;
      while i < n
        invariant Valid() && 0 <= i == |bytes| <= n && taken == old(taken) + bytes && (i <= fault)
        decreases n - i
      {
        empty := Empty();
        if empty {
          break;
        }
        var ch := GetByte();
        if i == fault {
          break;
        }
        bytes := bytes + [ch];
        i := i + 1;
      }
      r := Returned;
    }
  }

  /** Wrapped counters at most PIPESIZE apart tell the counts apart. */
  lemma Counters(taken: nat, written: nat)
    requires taken <= written <= taken + PIPESIZE
    ensures taken % WRAP == written % WRAP <==> taken == written
    ensures written % WRAP == (taken % WRAP + PIPESIZE) % WRAP <==> written == taken + PIPESIZE
  {}

  /** A wrapped counter selects the slot of its count, and steps with it. */
  lemma Slot(k: nat)
    ensures (k % WRAP) % PIPESIZE == k % PIPESIZE && (k % WRAP + 1) % WRAP == (k + 1) % WRAP
  {}

  /** The next slot to write holds no byte still to be read. */
  lemma FreeSlot(taken: nat, written: nat)
    requires taken <= written < taken + PIPESIZE
    ensures forall k :: taken <= k < written ==> k % PIPESIZE != written % PIPESIZE
  {}
}
