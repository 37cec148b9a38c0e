/** The inter-core queue as a concurrent protocol: one producer and one consumer
    interleave their individual loads and stores in any order. */
module SpscQueue {
  import opened Common
  import opened RingIndex

  /** A queue node; the physical buffer address is kept as a number. */
  datatype Node = Node(dataBuffer: nat, dataBufferLen: nat, packetId: nat)

  /** Where the producer stands inside an enqueue. */
  datatype Producer =
    | PIdle
    | PFill(node: Node, fields: nat)   // `fields` of the three fields are written
    | PStore(node: Node)               // second full check done, head not yet stored

  /** Where the consumer stands inside a dequeue. */
  datatype Consumer =
    | CIdle
    | CHeadCheck                       // saw "not full"; next compares head and tail
    | CTake                            // saw "not empty"
    | CMove(slot: nat)                 // holds the slot's address, tail not yet stored

  /** Shared memory, the two program counters and the history of the run.
      `pointer` is the slot whose address the last successful dequeue returned. */
  datatype Queue = Queue(
    maxSize: nat,
    head: nat,
    tail: nat,
    nodes: seq<Node>,
    producer: Producer,
    consumer: Consumer,
    pointer: Option<nat>,
    enqueued: seq<Node>,
    dequeued: seq<Node>,
    overwrites: nat,
    rejected: nat,
    emptyPolls: nat)

  datatype Step =
    | BeginEnq(node: Node)  // first full check
    | WriteField            // one field of the node at head
    | SecondCheck           // the full check inside "move head"
    | StoreHead
    | BeginDeq              // the full check inside the empty check
    | HeadCheck             // head compared with tail
    | TakeSlot              // address of the node at tail
    | StoreTail

  const NUM_Q_NODES: nat := 2048

  ghost predicate Shape(q: Queue) {
    && 2 <= q.maxSize <= |q.nodes|
    && q.head < q.maxSize
    && q.tail < q.maxSize
    && (q.producer.PFill? ==> q.producer.fields <= 3)
    && (q.consumer.CMove? ==> q.consumer.slot < q.maxSize)
  }

  function Full(q: Queue): bool { FullAt(q.head, q.tail, q.maxSize) }

  function Put(stored: Node, node: Node, field: nat): Node {
    if field == 0 then stored.(dataBuffer := node.dataBuffer)
    else if field == 1 then stored.(dataBufferLen := node.dataBufferLen)
    else stored.(packetId := node.packetId)
  }

  /** Any fresh ring: arbitrary old node contents, nothing enqueued. */
  function Start(maxSize: nat, nodes: seq<Node>): Queue {
    Queue(maxSize, 0, 0, nodes, PIdle, CIdle, None, [], [], 0, 0, 0)
  }

  /** One step; a step that is not enabled changes nothing. */
  function Apply(q: Queue, s: Step): (r: Queue)
    requires Shape(q)
    ensures Shape(r) && r.maxSize == q.maxSize && |r.nodes| == |q.nodes|
  {
    match s
    case BeginEnq(node) =>
      if !q.producer.PIdle? then q
      else if Full(q) then q.(rejected := q.rejected + 1)
      else q.(producer := PFill(node, 0))
    case WriteField =>
      if !q.producer.PFill? || q.producer.fields == 3 then q
      else
        q.(nodes := q.nodes[q.head := Put(q.nodes[q.head], q.producer.node, q.producer.fields)],
           producer := PFill(q.producer.node, q.producer.fields + 1))
    case SecondCheck =>
      if !q.producer.PFill? || q.producer.fields < 3 then q
      else if Full(q) then
        q.(tail := Next(q.tail, q.maxSize), overwrites := q.overwrites + 1,
           producer := PStore(q.producer.node))
      else q.(producer := PStore(q.producer.node))
    case StoreHead =>
      if !q.producer.PStore? then q
      else q.(head := Next(q.head, q.maxSize), enqueued := q.enqueued + [q.producer.node],
              producer := PIdle)
    case BeginDeq =>
      if !q.consumer.CIdle? then q
      else if Full(q) then q.(consumer := CTake)
      else q.(consumer := CHeadCheck)
    case HeadCheck =>
      if !q.consumer.CHeadCheck? then q
      else if q.head == q.tail then q.(consumer := CIdle, emptyPolls := q.emptyPolls + 1)
      else q.(consumer := CTake)
    case TakeSlot =>
      if !q.consumer.CTake? then q
      else q.(consumer := CMove(q.tail))
    case StoreTail =>
      if !q.consumer.CMove? then q
      else q.(tail := Next(q.tail, q.maxSize), pointer := Some(q.consumer.slot),
              dequeued := q.dequeued + [q.nodes[q.consumer.slot]], consumer := CIdle)
  }

  /** The state after `steps`, from a fresh ring. */
  function Run(maxSize: nat, nodes: seq<Node>, steps: seq<Step>): (q: Queue)
    requires 2 <= maxSize <= |nodes|
    ensures Shape(q) && q.maxSize == maxSize
  {
    if steps == [] then Start(maxSize, nodes)
    else Apply(Run(maxSize, nodes, steps[..|steps| - 1]), steps[|steps| - 1])
  }

  /** The nodes physically in the ring, oldest first. */
  function Contents(q: Queue): (r: seq<Node>)
    requires Shape(q)
  {
    Walk(q.nodes, q.tail, Occupied(q.head, q.tail, q.maxSize), q.maxSize)
  }

  /** The first `n` fields of `stored` are those of `node`. */
  predicate Agrees(stored: Node, node: Node, n: nat) {
    && (n >= 1 ==> stored.dataBuffer == node.dataBuffer)
    && (n >= 2 ==> stored.dataBufferLen == node.dataBufferLen)
    && (n >= 3 ==> stored.packetId == node.packetId)
  }

  ghost predicate Counted(q: Queue)
    requires Shape(q)
  {
    && |q.dequeued| <= |q.enqueued| < |q.dequeued| + q.maxSize
    && q.head == Slot(|q.enqueued|, q.maxSize)
    && q.tail == Slot(|q.dequeued|, q.maxSize)
  }

  /** First position whose slot is still protected: one earlier while a returned
      pointer may be dereferenced. */
  function Low(q: Queue): nat {
    if q.pointer.Some? && |q.dequeued| > 0 then |q.dequeued| - 1 else |q.dequeued|
  }

  ghost predicate Stored(q: Queue)
    requires Shape(q)
  {
    forall i :: Low(q) <= i < |q.enqueued| ==> q.nodes[Slot(i, q.maxSize)] == q.enqueued[i]
  }

  ghost predicate PointerInv(q: Queue)
    requires Shape(q)
  {
    q.pointer.Some? ==> |q.dequeued| > 0 && q.pointer.value == Slot(|q.dequeued| - 1, q.maxSize)
  }

  ghost predicate ProducerInv(q: Queue)
    requires Shape(q)
  {
    && (!q.producer.PIdle? ==> |q.enqueued| + 1 < |q.dequeued| + q.maxSize)
    && (q.producer.PFill? ==> Agrees(q.nodes[q.head], q.producer.node, q.producer.fields))
    && (q.producer.PStore? ==> q.nodes[q.head] == q.producer.node)
  }

  ghost predicate ConsumerInv(q: Queue) {
    && (q.consumer.CTake? || q.consumer.CMove? ==> |q.dequeued| < |q.enqueued|)
    && (q.consumer.CMove? ==> q.consumer.slot == q.tail)
  }

  ghost predicate Inv(q: Queue) {
    && Shape(q)
    && q.overwrites == 0
    && Counted(q)
    && q.dequeued <= q.enqueued
    && Stored(q)
    && PointerInv(q)
    && ProducerInv(q)
    && ConsumerInv(q)
  }

  /** The tests on the indices decide fullness and emptiness of the history. */
  lemma IndexTests(q: Queue)
    requires Inv(q)
    ensures Full(q) <==> |q.enqueued| - |q.dequeued| == q.maxSize - 1
    ensures q.head == q.tail <==> |q.enqueued| == |q.dequeued|
    ensures Occupied(q.head, q.tail, q.maxSize) == |q.enqueued| - |q.dequeued|
  {
    OccupiedIsDistance(|q.dequeued|, |q.enqueued|, q.maxSize);
  }

  /** A node being written is not at any protected position. */
  lemma WriteIsDisjoint(q: Queue, i: nat)
    requires Inv(q) && !q.producer.PIdle? && Low(q) <= i < |q.enqueued|
    ensures Slot(i, q.maxSize) != q.head
  {
    SlotDistinct(i, |q.enqueued|, q.maxSize);
  }

  lemma WriteFieldKeeps(q: Queue)
    requires Inv(q)
    ensures Inv(Apply(q, WriteField))
  {
    var r := Apply(q, WriteField);
    if r != q {
      forall i | Low(r) <= i < |r.enqueued|
        ensures r.nodes[Slot(i, r.maxSize)] == r.enqueued[i]
      {
        WriteIsDisjoint(q, i);
      }
    }
  }

  lemma StoreHeadKeeps(q: Queue)
    requires Inv(q)
    ensures Inv(Apply(q, StoreHead))
  {
    var r := Apply(q, StoreHead);
    if r != q {
      assert r.head == Slot(|r.enqueued|, r.maxSize);
      forall i | Low(r) <= i < |r.enqueued|
        ensures r.nodes[Slot(i, r.maxSize)] == r.enqueued[i]
      {
        assert i < |q.enqueued| ==> r.enqueued[i] == q.enqueued[i];
      }
    }
  }

  lemma StoreTailKeeps(q: Queue)
    requires Inv(q)
    ensures Inv(Apply(q, StoreTail))
  {
    var r := Apply(q, StoreTail);
    if r != q {
      var d := |q.dequeued|;
      assert q.nodes[Slot(d, q.maxSize)] == q.enqueued[d];
      assert r.dequeued == q.enqueued[..d + 1];
    }
  }

  lemma StepKeeps(q: Queue, s: Step)
    requires Inv(q)
    ensures Inv(Apply(q, s))
  {
    IndexTests(q);
    match s
    case WriteField => WriteFieldKeeps(q);
    case StoreHead => StoreHeadKeeps(q);
    case StoreTail => StoreTailKeeps(q);
    case _ =>
  }

  /** Every interleaving keeps the invariant. */
  lemma {:induction false} RunKeeps(maxSize: nat, nodes: seq<Node>, steps: seq<Step>)
    requires 2 <= maxSize <= |nodes|
    ensures Inv(Run(maxSize, nodes, steps))
  {
    if steps != [] {
      RunKeeps(maxSize, nodes, steps[..|steps| - 1]);
      StepKeeps(Run(maxSize, nodes, steps[..|steps| - 1]), steps[|steps| - 1]);
    }
  }

  /** What the ring physically holds is exactly what was enqueued and not yet dequeued. */
  lemma ContentsAreOutstanding(q: Queue)
    requires Inv(q)
    ensures q.enqueued == q.dequeued + Contents(q)
  {
    IndexTests(q);
    var d := |q.dequeued|;
    forall k | 0 <= k < |q.enqueued| - d
      ensures Contents(q)[k] == q.enqueued[d + k]
    {
      SlotAdd(d, k, q.maxSize);
      assert q.nodes[Slot(d + k, q.maxSize)] == q.enqueued[d + k];
    }
  }

  /** FIFO under every interleaving: the nodes dequeued so far followed by the nodes
      in the ring are the nodes enqueued so far, and the producer never moved tail. */
  lemma FifoInEveryRun(maxSize: nat, nodes: seq<Node>, steps: seq<Step>)
    requires 2 <= maxSize <= |nodes|
    ensures var q := Run(maxSize, nodes, steps);
            && q.dequeued <= q.enqueued
            && q.enqueued == q.dequeued + Contents(q)
            && |Contents(q)| <= maxSize - 1
            && q.overwrites == 0
  {
    RunKeeps(maxSize, nodes, steps);
    ContentsAreOutstanding(Run(maxSize, nodes, steps));
  }

  /** The overwrite branch is unreachable: whenever the second full check is about to
      run, the ring is not full. */
  lemma SecondCheckNeverFull(maxSize: nat, nodes: seq<Node>, steps: seq<Step>)
    requires 2 <= maxSize <= |nodes|
    ensures var q := Run(maxSize, nodes, steps);
            q.producer.PFill? || q.producer.PStore? ==> !Full(q)
  {
    RunKeeps(maxSize, nodes, steps);
    IndexTests(Run(maxSize, nodes, steps));
  }

  /** The node behind the pointer last returned by a dequeue still holds the dequeued
      values at every later moment before the next dequeue completes. */
  lemma PointerStaysValid(maxSize: nat, nodes: seq<Node>, steps: seq<Step>)
    requires 2 <= maxSize <= |nodes|
    ensures var q := Run(maxSize, nodes, steps);
            q.pointer.Some? ==>
              && q.pointer.value < maxSize
              && |q.dequeued| > 0
              && q.nodes[q.pointer.value] == q.dequeued[|q.dequeued| - 1]
  {
    RunKeeps(maxSize, nodes, steps);
    var q := Run(maxSize, nodes, steps);
    if q.pointer.Some? {
      assert q.nodes[Slot(|q.dequeued| - 1, maxSize)] == q.enqueued[|q.dequeued| - 1];
    }
  }

  /** An enqueue is refused only when maxSize - 1 nodes are outstanding, and a dequeue
      comes back empty-handed only when none is, both at that very moment. */
  lemma RefusalsAreHonest(maxSize: nat, nodes: seq<Node>, steps: seq<Step>, node: Node)
    requires 2 <= maxSize <= |nodes|
    ensures var q := Run(maxSize, nodes, steps);
            && (Apply(q, BeginEnq(node)).rejected > q.rejected
                <==> q.producer.PIdle? && |Contents(q)| == maxSize - 1)
            && (Apply(q, HeadCheck).emptyPolls > q.emptyPolls
                <==> q.consumer.CHeadCheck? && Contents(q) == [])
  {
    RunKeeps(maxSize, nodes, steps);
    IndexTests(Run(maxSize, nodes, steps));
  }

  /** What either side gets, at the very moment of the step, measured on the history alone: a
      dequeue that had begun ends without a node only if none is outstanding, and else with the
      oldest one; an enqueue that had begun ends with its node appended; one that begins does not
      get under way exactly when maxSize - 1 nodes are outstanding. */
  lemma OutcomesAreHonest(maxSize: nat, nodes: seq<Node>, steps: seq<Step>, step: Step)
    requires 2 <= maxSize <= |nodes|
    ensures var q := Run(maxSize, nodes, steps);
            var r := Apply(q, step);
            && (!q.consumer.CIdle? && r.consumer.CIdle? ==>
                  if Contents(q) == [] then r.dequeued == q.dequeued
                  else r.dequeued == q.dequeued + [Contents(q)[0]])
            && (!q.producer.PIdle? && r.producer.PIdle? ==> r.enqueued == q.enqueued + [q.producer.node])
            && (step.BeginEnq? && q.producer.PIdle? ==>
                  if |Contents(q)| == maxSize - 1 then r.producer.PIdle? && r.enqueued == q.enqueued
                  else !r.producer.PIdle? && r.producer.node == step.node)
  {
    RunKeeps(maxSize, nodes, steps);
    var q := Run(maxSize, nodes, steps);
    IndexTests(q);
    ContentsAreOutstanding(q);
    if q.consumer.CMove? {
      assert q.nodes[Slot(|q.dequeued|, maxSize)] == q.enqueued[|q.dequeued|];
    }
  }
}
