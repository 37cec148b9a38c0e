/** Transmitter, buffer pool, queue and receiver of the inter-core Ethernet channel,
    interleaved load by load and store by store. The receiver has the shape of the
    receive task; the two cores may map the shared table at different addresses. */
module TapChannel {
  import opened Common
  import opened TapAddress
  import Q = SpscQueue
  import P = BufPool

  type Frame = seq<Byte>

  datatype Config = Config(queueSize: nat, poolSize: nat, poolId: nat,
                           phyBase: nat, txBase: nat, rxBase: nat)

  /** The sizes fit the arrays, and the pool table lies below 4 GiB physically and inside
      both cores' address spaces. */
  ghost predicate ValidConfig(c: Config) {
    && 2 <= c.queueSize <= Q.NUM_Q_NODES
    && c.poolSize <= NUM_BUFFERS
    && c.phyBase + (c.poolId + 1) * POOL_BYTES <= U32
    && c.txBase + (c.poolId + 1) * POOL_BYTES < U64
    && c.rxBase + (c.poolId + 1) * POOL_BYTES < U64
  }

  /** Payload bytes and valid length of a pool buffer. */
  datatype Buffer = Buffer(payload: seq<Byte>, len: nat)

  datatype Failure = Oversize | QueueFull

  datatype Tx =
    | TxIdle
    | TxScan(frame: Frame, index: nat, wrapped: bool)  // searching the pool
    | TxTake(frame: Frame, buf: nat, stores: nat)      // marking the buffer found free
    | TxFill(frame: Frame, buf: nat, copied: nat)      // copying the frame
    | TxNode(frame: Frame, buf: nat)                   // about to enqueue
    | TxEnq(frame: Frame, buf: nat)                    // past the first full check
    | TxFailed(frame: Frame, buf: nat, why: Failure)   // an assertion fired

  datatype Rx =
    | RxIdle                                           // in, or about to start, a dequeue
    | RxLoad                                           // node pointer in hand
    | RxLen(ptr: nat)                                  // buffer pointer in hand
    | RxCopy(ptr: nat, len: nat, data: seq<Byte>)
    | RxFree(ptr: nat)                                 // frame written out
    | RxClear(ptr: nat)                                // reference count reached zero
    | RxCharge(ptr: nat)
    | RxFault                                          // dereferenced a wild pointer

  datatype Channel = Channel(
    cfg: Config,
    q: Q.Queue,
    pool: P.Pool,
    bufs: seq<Buffer>,
    tx: Tx,
    txCount: nat,
    rx: Rx,
    accepted: seq<Frame>,   // frames whose enqueue completed
    sent: seq<nat>,         // the buffers that carried them
    delivered: seq<Frame>)  // frames the receiver wrote out

  datatype Step =
    | TxRead(frame: Frame) | TxSleep | TxScanStep | TxTakeStep | TxCopyByte | TxFinishBuf
    | TxBeginEnq | TxEnqStep
    | RxDeqStep | RxLoadAddr | RxLoadLen | RxCopyByte | RxWrite
    | RxDropRef | RxClearUsed | RxChargePool

  ghost predicate Shape(s: Channel) {
    && ValidConfig(s.cfg)
    && Q.Shape(s.q) && s.q.maxSize == s.cfg.queueSize
    && |s.pool.used| == |s.pool.ref| == |s.bufs| == s.cfg.poolSize
    && (s.pool.lastAlloc < s.cfg.poolSize || s.pool.lastAlloc == 0)
    && (forall b :: 0 <= b < |s.bufs| ==> |s.bufs[b].payload| == ETH_FRAME_SIZE)
    && (s.tx.TxScan? ==> s.tx.index <= s.cfg.poolSize)
    && (s.tx.TxTake? ==> s.tx.buf < s.cfg.poolSize && s.tx.stores <= 3)
    && (s.tx.TxFill? ==> s.tx.buf < s.cfg.poolSize && s.tx.copied <= |s.tx.frame| <= ETH_FRAME_SIZE)
    && ((s.tx.TxNode? || s.tx.TxEnq? || s.tx.TxFailed?) ==> s.tx.buf < s.cfg.poolSize)
    && (s.q.pointer.Some? ==> s.q.pointer.value < s.q.maxSize)
    && (s.rx.RxCopy? ==> |s.rx.data| <= s.rx.len)
  }

  /** Address of buffer `b` in the queue node. */
  function Phy(c: Config, b: nat): nat {
    NodeAddress(c.txBase + BufOffset(c.poolId, b), c.txBase, c.phyBase)
  }

  /** The receiver's address of the buffer named by a node. */
  function Target(c: Config, phy: nat): nat { PhyToVirt(phy, c.phyBase, c.rxBase) }

  /** The buffer that starts exactly at a pointer of the receiver, if one does. */
  function Deref(c: Config, ptr: nat): (r: Option<nat>)
    ensures r.Some? ==> r.value < c.poolSize
  {
    var b := BufAt(ptr, c.rxBase, c.poolId);
    if 0 <= b < c.poolSize && ptr == c.rxBase + BufOffset(c.poolId, b) then Some(b) else None
  }

  function NodeFor(s: Channel, frame: Frame, buf: nat): Q.Node {
    Q.Node(Phy(s.cfg, buf), |frame|, s.txCount)
  }

  function ProducerStep(q: Q.Queue): Q.Step {
    if q.producer.PFill? then if q.producer.fields < 3 then Q.WriteField else Q.SecondCheck
    else Q.StoreHead
  }

  function ConsumerStep(q: Q.Queue): Q.Step {
    match q.consumer
    case CIdle => Q.BeginDeq
    case CHeadCheck => Q.HeadCheck
    case CTake => Q.TakeSlot
    case CMove(_) => Q.StoreTail
  }

  // ----- transmitter -----

  /** One probe of the search for a free buffer: up from the last allocation, then from 0. */
  function Scan(s: Channel): (r: Channel)
    requires Shape(s) && s.tx.TxScan?
    ensures Shape(r)
  {
    var TxScan(frame, i, wrapped) := s.tx;
    var end := if wrapped then s.pool.lastAlloc else s.cfg.poolSize;
    if i < end then
      if s.pool.used[i] then s.(tx := TxScan(frame, i + 1, wrapped))
      else s.(tx := TxTake(frame, i, 0))
    else if !wrapped then s.(tx := TxScan(frame, 0, true))
    else s.(pool := s.pool.(getErrs := s.pool.getErrs + 1), tx := TxIdle)
  }

  /** One of the four stores that take the buffer found: use flag, reference count, last allocation
      and statistic. Then the transmitter asserts that the frame fits. */
  function TakeStep(s: Channel): (r: Channel)
    requires Shape(s) && s.tx.TxTake?
    ensures Shape(r)
  {
    var TxTake(frame, b, stores) := s.tx;
    match stores
    case 0 => s.(pool := s.pool.(used := s.pool.used[b := true]), tx := TxTake(frame, b, 1))
    case 1 => s.(pool := s.pool.(ref := s.pool.ref[b := 1]), tx := TxTake(frame, b, 2))
    case 2 => s.(pool := s.pool.(lastAlloc := b), tx := TxTake(frame, b, 3))
    case _ =>
      s.(pool := s.pool.(gets := s.pool.gets + 1),
         tx := if |frame| > ETH_FRAME_SIZE then TxFailed(frame, b, Oversize) else TxFill(frame, b, 0))
  }

  function CopyIn(s: Channel): (r: Channel)
    requires Shape(s) && s.tx.TxFill? && s.tx.copied < |s.tx.frame|
    ensures Shape(r)
  {
    var TxFill(frame, b, k) := s.tx;
    var buf := s.bufs[b];
    s.(bufs := s.bufs[b := buf.(payload := buf.payload[k := frame[k]])],
       tx := TxFill(frame, b, k + 1))
  }

  function FinishBuf(s: Channel): (r: Channel)
    requires Shape(s) && s.tx.TxFill?
    ensures Shape(r)
  {
    var TxFill(frame, b, _) := s.tx;
    s.(bufs := s.bufs[b := s.bufs[b].(len := |frame|)], tx := TxNode(frame, b))
  }

  /** The first full check; a refusal makes the transmitter's assertion fail. */
  function BeginEnq(s: Channel): (r: Channel)
    requires Shape(s) && s.tx.TxNode?
    ensures Shape(r)
  {
    var TxNode(frame, b) := s.tx;
    var q := Q.Apply(s.q, Q.BeginEnq(NodeFor(s, frame, b)));
    if Q.Full(s.q) then s.(q := q, tx := TxFailed(frame, b, QueueFull))
    else s.(q := q, tx := TxEnq(frame, b))
  }

  function ContinueEnq(s: Channel): (r: Channel)
    requires Shape(s) && s.tx.TxEnq?
    ensures Shape(r)
  {
    var TxEnq(frame, b) := s.tx;
    var q := Q.Apply(s.q, ProducerStep(s.q));
    if s.q.producer.PStore? then
      s.(q := q, tx := TxIdle, txCount := s.txCount + 1,
         accepted := s.accepted + [frame], sent := s.sent + [b])
    else s.(q := q)
  }

  // ----- receiver -----

  function Dequeue(s: Channel): (r: Channel)
    requires Shape(s) && s.rx.RxIdle?
    ensures Shape(r)
  {
    var q := Q.Apply(s.q, ConsumerStep(s.q));
    if s.q.consumer.CMove? then s.(q := q, rx := RxLoad) else s.(q := q)
  }

  function LoadLen(s: Channel): (r: Channel)
    requires Shape(s) && s.rx.RxLen?
    ensures Shape(r)
  {
    var b := Deref(s.cfg, s.rx.ptr);
    if b.None? then s.(rx := RxFault) else s.(rx := RxCopy(s.rx.ptr, s.bufs[b.value].len, []))
  }

  function CopyOut(s: Channel): (r: Channel)
    requires Shape(s) && s.rx.RxCopy? && |s.rx.data| < s.rx.len
    ensures Shape(r)
  {
    var RxCopy(ptr, len, data) := s.rx;
    var b := Deref(s.cfg, ptr);
    if b.None? || |data| >= ETH_FRAME_SIZE then s.(rx := RxFault)
    else s.(rx := RxCopy(ptr, len, data + [s.bufs[b.value].payload[|data|]]))
  }

  function DropRef(s: Channel): (r: Channel)
    requires Shape(s) && s.rx.RxFree?
    ensures Shape(r)
  {
    var b := Deref(s.cfg, s.rx.ptr);
    if b.None? then s.(rx := RxFault)
    else
      var n := s.pool.ref[b.value];
      if n <= 0 then s.(rx := RxCharge(s.rx.ptr))
      else s.(pool := s.pool.(ref := s.pool.ref[b.value := n - 1]),
              rx := if n == 1 then RxClear(s.rx.ptr) else RxCharge(s.rx.ptr))
  }

  function ClearUsed(s: Channel): (r: Channel)
    requires Shape(s) && s.rx.RxClear?
    ensures Shape(r)
  {
    var b := Deref(s.cfg, s.rx.ptr);
    if b.None? then s.(rx := RxFault)
    else s.(pool := s.pool.(used := s.pool.used[b.value := false]), rx := RxCharge(s.rx.ptr))
  }

  /** One step of either task; a step that is not enabled changes nothing. */
  function Apply(s: Channel, step: Step): (r: Channel)
    requires Shape(s)
    ensures Shape(r) && r.cfg == s.cfg
  {
    match step
    case TxRead(frame) =>
      if s.tx.TxIdle? && frame != [] then s.(tx := TxScan(frame, s.pool.lastAlloc, false)) else s
    case TxSleep => if s.tx.TxIdle? then s.(txCount := 0) else s
    case TxScanStep => if s.tx.TxScan? then Scan(s) else s
    case TxTakeStep => if s.tx.TxTake? then TakeStep(s) else s
    case TxCopyByte => if s.tx.TxFill? && s.tx.copied < |s.tx.frame| then CopyIn(s) else s
    case TxFinishBuf => if s.tx.TxFill? && s.tx.copied == |s.tx.frame| then FinishBuf(s) else s
    case TxBeginEnq => if s.tx.TxNode? then BeginEnq(s) else s
    case TxEnqStep => if s.tx.TxEnq? then ContinueEnq(s) else s
    case RxDeqStep => if s.rx.RxIdle? then Dequeue(s) else s
    case RxLoadAddr =>
      if s.rx.RxLoad? && s.q.pointer.Some? then
        s.(rx := RxLen(Target(s.cfg, s.q.nodes[s.q.pointer.value].dataBuffer)))
      else s
    case RxLoadLen => if s.rx.RxLen? then LoadLen(s) else s
    case RxCopyByte => if s.rx.RxCopy? && |s.rx.data| < s.rx.len then CopyOut(s) else s
    case RxWrite =>
      if s.rx.RxCopy? && |s.rx.data| == s.rx.len then
        s.(rx := RxFree(s.rx.ptr), delivered := s.delivered + [s.rx.data])
      else s
    case RxDropRef => if s.rx.RxFree? then DropRef(s) else s
    case RxClearUsed => if s.rx.RxClear? then ClearUsed(s) else s
    case RxChargePool =>
      if s.rx.RxCharge? then s.(pool := s.pool.(frees := s.pool.frees + 1), rx := RxIdle) else s
  }

  /** Old contents of the shared memory at start-up. */
  datatype Memory = Memory(nodes: seq<Q.Node>, bufs: seq<Buffer>)

  ghost predicate ValidMemory(c: Config, m: Memory) {
    && |m.nodes| == Q.NUM_Q_NODES
    && |m.bufs| == c.poolSize
    && forall b :: 0 <= b < |m.bufs| ==> |m.bufs[b].payload| == ETH_FRAME_SIZE
  }

  function Start(c: Config, m: Memory): Channel {
    Channel(c, Q.Start(c.queueSize, m.nodes), P.Fresh(c.poolSize), m.bufs,
            TxIdle, 0, RxIdle, [], [], [])
  }

  /** The state after `steps`. */
  function Run(c: Config, m: Memory, steps: seq<Step>): (s: Channel)
    requires ValidConfig(c) && ValidMemory(c, m)
    ensures Shape(s) && s.cfg == c
  {
    if steps == [] then Start(c, m)
    else Apply(Run(c, m, steps[..|steps| - 1]), steps[|steps| - 1])
  }
}
