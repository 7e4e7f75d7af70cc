/**
 The doubly linked list of kernel/bio.c as values: `next` and `prev` pointers of the buffers and
 of the list head, against the order they spell out, most recently used first.
*/
module BufferList {

  const NBUF: nat := 30   // kernel/param.h
  const HEAD: nat := NBUF  // the list head follows the buffers

  /** The list with its head at both ends. */
  function Ring(order: seq<nat>): seq<nat> { [HEAD] + order + [HEAD] }

  ghost predicate Adjacent(next: seq<nat>, prev: seq<nat>, a: nat, b: nat) {
    && a < |next| == NBUF + 1 && b < |prev| == NBUF + 1
    && next[a] == b && prev[b] == a
  }

  /** Following next and following prev both visit exactly `order`, and no buffer twice. */
  ghost predicate ListOk(next: seq<nat>, prev: seq<nat>, order: seq<nat>) {
    && |next| == |prev| == NBUF + 1
    && (forall i :: 0 <= i < |order| ==> order[i] < NBUF)
    && (forall i, j :: 0 <= i < j < |order| ==> order[i] != order[j])
    && (forall i, j :: 0 <= i && j == i + 1 && j < |order| + 2 ==> Adjacent(next, prev, Ring(order)[i], Ring(order)[j]))
  }

  function Without(order: seq<nat>, k: nat): seq<nat>
    requires k < |order|
  {
    order[..k] + order[k + 1..]
  }

  function InsertedNext(next: seq<nat>, b: nat): seq<nat>
    requires b < NBUF && |next| == NBUF + 1
  {
    next[b := next[HEAD]][HEAD := b]
  }

  function InsertedPrev(next: seq<nat>, prev: seq<nat>, b: nat): seq<nat>
    requires b < NBUF && |next| == |prev| == NBUF + 1 && next[HEAD] <= NBUF
  {
    prev[b := HEAD][next[HEAD] := b]
  }

  lemma InsertOk(next: seq<nat>, prev: seq<nat>, order: seq<nat>, b: nat)
    requires ListOk(next, prev, order) && b < NBUF && b !in order
    ensures next[HEAD] <= NBUF
    ensures ListOk(InsertedNext(next, b), InsertedPrev(next, prev, b), [b] + order)
  {
    var r, r' := Ring(order), Ring([b] + order);
    assert Adjacent(next, prev, r[0], r[1]);
    var next', prev' := InsertedNext(next, b), InsertedPrev(next, prev, b);
    forall i, j | 0 <= i && j == i + 1 && j < |order| + 3 ensures Adjacent(next', prev', r'[i], r'[j]) {
      if i >= 2 {
        assert Adjacent(next, prev, r[i - 1], r[j - 1]);
      }
    }
  }

  lemma UnlinkOk(next: seq<nat>, prev: seq<nat>, order: seq<nat>, k: nat)
    requires ListOk(next, prev, order) && k < |order|
    ensures var b := order[k];
            && next[b] <= NBUF && prev[b] <= NBUF
            && ListOk(next[prev[b] := next[b]], prev[next[b] := prev[b]], Without(order, k))
            && b !in Without(order, k)
  {
    var b, r, w := order[k], Ring(order), Ring(Without(order, k));
    assert r[k + 1] == b;
    assert Adjacent(next, prev, r[k], r[k + 1]) && Adjacent(next, prev, r[k + 1], r[k + 2]);
    var next', prev' := next[prev[b] := next[b]], prev[next[b] := prev[b]];
    forall i, j | 0 <= i && j == i + 1 && j < |order| + 1 ensures Adjacent(next', prev', w[i], w[j]) {
      if i < k {
        assert w[i] == r[i] && w[j] == r[j] && Adjacent(next, prev, r[i], r[j]);
      } else if i == k {
        assert w[i] == r[k] && w[j] == r[k + 2];
      } else {
        assert w[i] == r[i + 1] && w[j] == r[j + 1] && Adjacent(next, prev, r[i + 1], r[j + 1]);
      }
    }
  }
}
