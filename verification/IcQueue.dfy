/** The inter-core queue object and its operations as called by one core at a time.
    The interleaved behaviour of the same loads and stores is in module SpscQueue. */
module IcQueue {
  import opened Common
  import opened RingIndex
  import S = SpscQueue

  type Node = S.Node

  datatype EnqStatus = Success | QFull

  class IcQ {
    var head: nat
    var tail: nat
    const maxSize: nat
    const nodeArray: array<Node>

    ghost predicate Valid()
      reads this
    {
      && nodeArray.Length == S.NUM_Q_NODES
      && 2 <= maxSize <= S.NUM_Q_NODES
      && head < maxSize
      && tail < maxSize
    }

    /** The queued nodes, oldest first. */
    ghost function Contents(): (r: seq<Node>)
      requires Valid()
      reads this, nodeArray
      ensures |r| < maxSize
    {
      Walk(nodeArray[..], tail, Occupied(head, tail, maxSize), maxSize)
    }

    /** The slot released by the latest dequeue: the one the full test always keeps unused. */
    ghost function SpareSlot(): (r: nat)
      requires Valid()
      reads this
    {
      if tail == 0 then maxSize - 1 else tail - 1
    }

    constructor (size: nat)
      requires 2 <= size <= S.NUM_Q_NODES
      ensures Valid() && fresh(nodeArray) && maxSize == size && Contents() == []
    {
      head, tail, maxSize := 0, 0, size;
      nodeArray := new Node[S.NUM_Q_NODES](_ => S.Node(0, 0, 0));
    }

    method IsQFull() returns (full: bool)
      requires Valid()
      ensures full <==> |Contents()| == maxSize - 1
    {
      var h := head + 1;
      if h == maxSize {
        h := 0;
      }
      full := h == tail;
    }

    method IsQEmpty() returns (empty: bool)
      requires Valid()
      ensures empty <==> Contents() == []
    {
      var full := IsQFull();
      empty := !full && head == tail;
    }

    /** Reports `maxSize`, not the number of nodes, for a full ring. */
    method GetQCount() returns (count: nat)
      requires Valid()
      ensures count == if |Contents()| == maxSize - 1 then maxSize else |Contents()|
    {
      count := maxSize;
      var full := IsQFull();
      if !full {
        if head >= tail {
          count := head - tail;
        } else {
          count := maxSize + head - tail;
        }
      }
    }

    /** Advances head; on a full ring it first discards the oldest node. */
    method MoveHead()
      requires Valid()
      modifies this
      ensures Valid()
      ensures |old(Contents())| == maxSize - 1 ==>
                Contents() == old(Contents())[1..] + [old(nodeArray[head])]
      ensures |old(Contents())| < maxSize - 1 ==>
                tail == old(tail) && Contents() == old(Contents()) + [old(nodeArray[head])]
    {
      var full := IsQFull();
      if full {
        WalkPop(nodeArray[..], head, tail, maxSize);
        tail := tail + 1;
        if tail == maxSize {
          tail := 0;
        }
      }
      WalkPush(nodeArray[..], head, tail, maxSize);
      head := head + 1;
      if head == maxSize {
        head := 0;
      }
    }

    method MoveTail()
      requires Valid() && Contents() != []
      modifies this`tail
      ensures Valid() && Contents() == old(Contents())[1..]
      ensures SpareSlot() == old(tail)
    {
      WalkPop(nodeArray[..], head, tail, maxSize);
      tail := tail + 1;
      if tail == maxSize {
        tail := 0;
      }
    }

    /** Appends a copy of the node, or refuses and changes nothing when the ring is full.
        Neither tail nor the node last handed out by a dequeue is touched. */
    method Enq(node: Node) returns (status: EnqStatus)
      requires Valid()
      modifies this, nodeArray
      ensures Valid()
      ensures status == QFull <==> |old(Contents())| == maxSize - 1
      ensures Contents() == if status == Success then old(Contents()) + [node] else old(Contents())
      ensures tail == old(tail)
      ensures nodeArray[SpareSlot()] == old(nodeArray[SpareSlot()])
    {
      ghost var was := nodeArray[..];
      var full := IsQFull();
      if !full {
        nodeArray[head] := nodeArray[head].(dataBuffer := node.dataBuffer);
        nodeArray[head] := nodeArray[head].(dataBufferLen := node.dataBufferLen);
        nodeArray[head] := nodeArray[head].(packetId := node.packetId);
        assert nodeArray[..] == was[head := node];
        WalkPut(was, head, tail, maxSize, node);
        MoveHead();
        status := Success;
      } else {
        status := QFull;
      }
    }

    /** Hands out the slot of the oldest node, leaving the node itself in place. */
    method Deq() returns (slot: Option<nat>)
      requires Valid()
      modifies this`tail
      ensures Valid()
      ensures slot.None? <==> old(Contents()) == []
      ensures slot.None? ==> tail == old(tail)
      ensures slot.Some? ==>
                && slot.value == SpareSlot()
                && slot.value < maxSize
                && nodeArray[slot.value] == old(Contents())[0]
                && Contents() == old(Contents())[1..]
    {
      slot := None;
      var empty := IsQEmpty();
      if !empty {
        WalkPop(nodeArray[..], head, tail, maxSize);
        slot := Some(tail);
        MoveTail();
      }
    }

    method ResetQ()
      requires Valid()
      modifies this
      ensures Valid() && Contents() == []
    {
      head := 0;
      tail := 0;
    }
  }

  /** The producer's atomic steps of one undisturbed enqueue. */
  function EnqueueQuietly(q: S.Queue, node: Node): (r: S.Queue)
    requires S.Shape(q)
  {
    var checked := S.Apply(q, S.BeginEnq(node));
    var filled := S.Apply(S.Apply(S.Apply(checked, S.WriteField), S.WriteField), S.WriteField);
    S.Apply(S.Apply(filled, S.SecondCheck), S.StoreHead)
  }

  /** Without interference the atomic steps do what `Enq` promises, so the interleaved
      protocol and the queue object agree on a quiet ring. */
  lemma QuietEnqueueAppends(q: S.Queue, node: Node)
    requires S.Inv(q) && q.producer.PIdle?
    ensures S.Contents(EnqueueQuietly(q, node))
         == if |S.Contents(q)| == q.maxSize - 1 then S.Contents(q) else S.Contents(q) + [node]
  {
    S.IndexTests(q);
    if !S.Full(q) {
      assert EnqueueQuietly(q, node).nodes == q.nodes[q.head := node];
      WalkPut(q.nodes, q.head, q.tail, q.maxSize, node);
      WalkPush(q.nodes[q.head := node], q.head, q.tail, q.maxSize);
    }
  }

  /** The consumer's atomic steps of one undisturbed dequeue. */
  function DequeueQuietly(q: S.Queue): (r: S.Queue)
    requires S.Shape(q)
    ensures S.Shape(r)
  {
    S.Apply(S.Apply(S.Apply(S.Apply(q, S.BeginDeq), S.HeadCheck), S.TakeSlot), S.StoreTail)
  }

  /** Without interference the atomic steps do what `Deq` promises: they take the oldest node and
      hand out its slot, or take nothing exactly when the ring is empty. */
  lemma QuietDequeueTakes(q: S.Queue)
    requires S.Inv(q) && q.consumer.CIdle?
    ensures var r, c := DequeueQuietly(q), S.Contents(q);
            && r.consumer.CIdle? && r.enqueued == q.enqueued && r.nodes == q.nodes
            && if c == [] then S.Contents(r) == [] && r.dequeued == q.dequeued && r.pointer == q.pointer
               else
                 && S.Contents(r) == c[1..]
                 && r.dequeued == q.dequeued + [c[0]]
                 && r.pointer.Some? && r.pointer.value < |r.nodes| && r.nodes[r.pointer.value] == c[0]
  {
    S.IndexTests(q);
    if S.Contents(q) != [] {
      WalkPop(q.nodes, q.head, q.tail, q.maxSize);
      assert DequeueQuietly(q).tail == Next(q.tail, q.maxSize);
      assert S.Contents(q)[0] == q.nodes[q.tail];
    }
  }
}
