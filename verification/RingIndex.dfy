/** Index arithmetic of the inter-core queue: a ring of `m` slots whose indices
    advance by "increment, and wrap to 0 on reaching m". */
module RingIndex {

  /** One increment-and-wrap. */
  function Next(i: nat, m: nat): nat {
    if i + 1 == m then 0 else i + 1
  }

  /** The full test of the queue: the slot after `head` is `tail`. */
  predicate FullAt(head: nat, tail: nat, m: nat) {
    Next(head, m) == tail
  }

  /** Number of slots from `tail` up to `head`. */
  function Occupied(head: nat, tail: nat, m: nat): nat
    requires head < m && tail < m
  {
    if head >= tail then head - tail else m + head - tail
  }

  /** The slot reached after `k` increments from slot 0. */
  function Slot(k: nat, m: nat): (r: nat)
    requires m > 0
    ensures r < m
  {
    if k == 0 then 0 else Next(Slot(k - 1, m), m)
  }

  /** `x` brought back into the ring, for `x` less than two turns. */
  function Wrap(x: nat, m: nat): (r: nat)
    requires x < 2 * m
    ensures r < m
  {
    if x < m then x else x - m
  }

  /** The `n` elements stored from slot `tail` on. */
  function Walk<T>(nodes: seq<T>, tail: nat, n: nat, m: nat): (r: seq<T>)
    requires tail < m <= |nodes| && n <= m
    ensures |r| == n
  {
    seq(n, k requires 0 <= k < n => nodes[Wrap(tail + k, m)])
  }

  /** Moving on by up to one turn adds, and wraps at most once. */
  lemma {:induction false} SlotAdd(k: nat, d: nat, m: nat)
    requires 0 < m && d <= m
    ensures Slot(k + d, m) == Wrap(Slot(k, m) + d, m)
  {
    if d > 0 {
      SlotAdd(k, d - 1, m);
      assert Slot(k + d, m) == Next(Slot(k + d - 1, m), m);
    }
  }

  /** Fewer than `m` consecutive positions occupy distinct slots. */
  lemma SlotDistinct(i: nat, j: nat, m: nat)
    requires i < j < i + m
    ensures Slot(i, m) != Slot(j, m)
  {
    SlotAdd(i, j - i, m);
  }

  /** The occupied count recovers how far the head is ahead of the tail. */
  lemma OccupiedIsDistance(d: nat, e: nat, m: nat)
    requires d <= e < d + m
    ensures Occupied(Slot(e, m), Slot(d, m), m) == e - d
    ensures FullAt(Slot(e, m), Slot(d, m), m) <==> e - d == m - 1
    ensures Slot(e, m) == Slot(d, m) <==> e == d
  {
    SlotAdd(d, e - d, m);
    SlotAdd(e, 1, m);
    SlotAdd(d, e - d + 1, m);
  }

  /** Advancing head appends the element at head. */
  lemma WalkPush<T>(nodes: seq<T>, head: nat, tail: nat, m: nat)
    requires head < m <= |nodes| && tail < m && Occupied(head, tail, m) < m - 1
    ensures var n := Occupied(head, tail, m);
            && Occupied(Next(head, m), tail, m) == n + 1
            && Walk(nodes, tail, n + 1, m) == Walk(nodes, tail, n, m) + [nodes[head]]
  {
    assert Wrap(tail + Occupied(head, tail, m), m) == head;
  }

  /** Advancing tail drops the first element, which was the one at tail. */
  lemma WalkPop<T>(nodes: seq<T>, head: nat, tail: nat, m: nat)
    requires head < m <= |nodes| && tail < m && head != tail
    ensures var n := Occupied(head, tail, m);
            && n > 0
            && Occupied(head, Next(tail, m), m) == n - 1
            && Walk(nodes, tail, n, m)[0] == nodes[tail]
            && Walk(nodes, Next(tail, m), n - 1, m) == Walk(nodes, tail, n, m)[1..]
  {
    var n := Occupied(head, tail, m);
    assert Wrap(tail + 0, m) == tail;
    forall k | 0 <= k < n - 1
      ensures Walk(nodes, Next(tail, m), n - 1, m)[k] == Walk(nodes, tail, n, m)[1..][k]
    {
      assert Wrap(Next(tail, m) + k, m) == Wrap(tail + (k + 1), m);
    }
  }

  /** A store into the slot at head does not show among the queued elements. */
  lemma WalkPut<T>(nodes: seq<T>, head: nat, tail: nat, m: nat, x: T)
    requires head < m <= |nodes| && tail < m
    ensures var n := Occupied(head, tail, m);
            Walk(nodes[head := x], tail, n, m) == Walk(nodes, tail, n, m)
  {
    var n := Occupied(head, tail, m);
    forall k | 0 <= k < n
      ensures Walk(nodes[head := x], tail, n, m)[k] == Walk(nodes, tail, n, m)[k]
    {
      assert Wrap(tail + k, m) != head;
    }
  }
}
