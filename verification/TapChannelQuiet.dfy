/** What becomes of the frames that are read: in every run, and when a task works undisturbed. */
module TapChannelQuiet {
  import opened Common
  import opened Iteration
  import opened TapAddress
  import opened TapChannel
  import opened TapChannelProof
  import opened TapChannelTheorems
  import Q = SpscQueue
  import P = BufPool

  // ----- frames read, in every run -----

  /** The frame in the transmitter's hands, if there is one. */
  function FrameInHand(s: Channel): seq<Frame> { if s.tx.TxIdle? then [] else [s.tx.frame] }

  /** The step reads a frame: the transmitter is idle and the device has data. */
  predicate ReadsFrame(s: Channel, step: Step) {
    step.TxRead? && step.frame != [] && s.tx.TxIdle?
  }

  /** The step ends a search without a buffer, and so gives the frame up. */
  predicate GivesUp(s: Channel, step: Step)
    requires Shape(s)
  {
    step.TxScanStep? && s.tx.TxScan? && Apply(s, step).tx.TxIdle?
  }

  function WithoutLast(frames: seq<Frame>): seq<Frame> {
    if frames == [] then [] else frames[..|frames| - 1]
  }

  /** The frames read in the run, in order, without those given up. */
  function KeptFrames(c: Config, m: Memory, steps: seq<Step>): seq<Frame>
    requires ValidConfig(c) && ValidMemory(c, m)
  {
    if steps == [] then []
    else
      var init, step := steps[..|steps| - 1], steps[|steps| - 1];
      var s, kept := Run(c, m, init), KeptFrames(c, m, init);
      if ReadsFrame(s, step) then kept + [step.frame]
      else if GivesUp(s, step) then WithoutLast(kept)
      else kept
  }

  lemma KeptStep(s: Channel, step: Step)
    requires Shape(s)
    ensures var r := Apply(s, step);
            && (ReadsFrame(s, step) ==> r.accepted == s.accepted && FrameInHand(s) == []
                                        && FrameInHand(r) == [step.frame])
            && (GivesUp(s, step) ==> r.accepted == s.accepted && |FrameInHand(s)| == 1 && FrameInHand(r) == [])
            && (!ReadsFrame(s, step) && !GivesUp(s, step) ==>
                  r.accepted + FrameInHand(r) == s.accepted + FrameInHand(s))
  {
  }

  /** In every run the frames read and not given up are the frames accepted, followed by the frame in
      the transmitter's hands if there is one. */
  lemma {:induction false} FramesReadAreAccepted(c: Config, m: Memory, steps: seq<Step>)
    requires ValidConfig(c) && ValidMemory(c, m)
    ensures var s := Run(c, m, steps);
            KeptFrames(c, m, steps) == s.accepted + FrameInHand(s)
  {
    if steps != [] {
      var init, step := steps[..|steps| - 1], steps[|steps| - 1];
      FramesReadAreAccepted(c, m, init);
      KeptStep(Run(c, m, init), step);
    }
  }

  /** From the device to the other device, in every run: what was read and not given up is what was
      delivered, then what lies in the buffers on the way, then what the transmitter holds. */
  lemma EndToEnd(c: Config, m: Memory, steps: seq<Step>)
    requires ValidConfig(c) && ValidMemory(c, m)
    ensures var s := Run(c, m, steps);
            KeptFrames(c, m, steps) == s.delivered + InFlight(s) + FrameInHand(s)
  {
    FramesReadAreAccepted(c, m, steps);
    DeliveredInOrder(c, m, steps);
  }

  // ----- packet ids -----

  /** Frames enqueued since the transmitter last slept. */
  function SinceSleep(c: Config, m: Memory, steps: seq<Step>): nat
    requires ValidConfig(c) && ValidMemory(c, m)
  {
    if steps == [] then 0
    else
      var init, step := steps[..|steps| - 1], steps[|steps| - 1];
      var s := Run(c, m, init);
      if Sleeps(s, step) then 0
      else if |Apply(s, step).accepted| > |s.accepted| then SinceSleep(c, m, init) + 1
      else SinceSleep(c, m, init)
  }

  /** The latest `n` nodes enqueued carry the packet ids from 0 up. */
  ghost predicate Numbered(s: Channel, n: nat) {
    && s.txCount == n <= |s.q.enqueued|
    && forall i :: |s.q.enqueued| - n <= i < |s.q.enqueued| ==>
         s.q.enqueued[i].packetId == i - (|s.q.enqueued| - n)
  }

  predicate Sleeps(s: Channel, step: Step) { step.TxSleep? && s.tx.TxIdle? }

  /** A step either completes an enqueue, with the count as packet id, or leaves the history alone. */
  lemma CountStep(s: Channel, step: Step)
    requires Shape(s) && Control(s)
    ensures var r := Apply(s, step);
            if |r.accepted| != |s.accepted| then
              && !Sleeps(s, step) && |r.accepted| == |s.accepted| + 1 && r.txCount == s.txCount + 1
              && |r.q.enqueued| == |s.q.enqueued| + 1 && r.q.enqueued[..|s.q.enqueued|] == s.q.enqueued
              && r.q.enqueued[|s.q.enqueued|].packetId == s.txCount
            else
              r.q.enqueued == s.q.enqueued && r.txCount == if Sleeps(s, step) then 0 else s.txCount
  {
  }

  lemma NumberedStep(s: Channel, step: Step, n: nat)
    requires Shape(s) && Control(s) && Numbered(s, n)
    ensures Numbered(Apply(s, step), if Sleeps(s, step) then 0
                                     else if |Apply(s, step).accepted| > |s.accepted| then n + 1 else n)
  {
    CountStep(s, step);
    var r := Apply(s, step);
    forall i | 0 <= i < |s.q.enqueued| && |r.q.enqueued| > |s.q.enqueued|
      ensures r.q.enqueued[i] == s.q.enqueued[i]
    {
      assert r.q.enqueued[i] == r.q.enqueued[..|s.q.enqueued|][i];
    }
  }

  /** In every run the frames sent since the transmitter last slept are numbered from 0 up. */
  lemma {:induction false} PacketIds(c: Config, m: Memory, steps: seq<Step>)
    requires ValidConfig(c) && ValidMemory(c, m)
    ensures Numbered(Run(c, m, steps), SinceSleep(c, m, steps))
  {
    if steps != [] {
      var init := steps[..|steps| - 1];
      PacketIds(c, m, init);
      RunKeeps(c, m, init);
      NumberedStep(Run(c, m, init), steps[|steps| - 1], SinceSleep(c, m, init));
    }
  }

  // ----- the transmitter undisturbed -----

  /** The step the transmitter takes next once it has a frame. */
  function TxNext(s: Channel): Step {
    match s.tx
    case TxTake(_, _, _) => TxTakeStep
    case TxFill(frame, _, copied) => if copied < |frame| then TxCopyByte else TxFinishBuf
    case TxNode(_, _) => TxBeginEnq
    case TxEnq(_, _) => TxEnqStep
    case _ => TxScanStep
  }

  /** One step of the transmitter. */
  ghost function TxWork(s: Channel): Channel {
    if Shape(s) then Apply(s, TxNext(s)) else s
  }

  lemma TxWorkKeeps(s: Channel)
    requires Inv(s)
    ensures Inv(TxWork(s))
  {
    StepKeeps(s, TxNext(s));
  }

  /** The transmitter, left undisturbed in `s`, comes to `r`. */
  ghost predicate TxLeads(s: Channel, r: Channel) { Leads(TxWork, s, r) }

  lemma {:induction false} ScanAlone(s: Channel)
    requires Shape(s) && s.tx.TxScan? && ProbedUsed(s)
    ensures TxLeads(s, ScanQuietly(s))
    decreases ScanLeft(s)
  {
    ProbeKeeps(s);
    LeadsStep(TxWork, s);
    var r := Scan(s);
    if r.tx.TxScan? {
      ScanAlone(r);
      LeadsOn(TxWork, s, r, ScanQuietly(r));
    }
  }

  lemma TakeAlone(s: Channel)
    requires Shape(s) && s.tx.TxTake? && s.tx.stores == 0
    ensures TxLeads(s, TakeQuietly(s))
  {
    var s1 := TakeStep(s);
    var s2 := TakeStep(s1);
    var s3 := TakeStep(s2);
    var s4 := TakeStep(s3);
    LeadsStep(TxWork, s);
    LeadsStep(TxWork, s1);
    LeadsStep(TxWork, s2);
    LeadsStep(TxWork, s3);
    LeadsOn(TxWork, s, s1, s2);
    LeadsOn(TxWork, s, s2, s3);
    LeadsOn(TxWork, s, s3, s4);
  }

  /** The frame is copied in and its length stored. */
  lemma {:induction false} CopyAlone(s: Channel) returns (r: Channel)
    requires Shape(s) && s.tx.TxFill?
    ensures TxLeads(s, r) && Shape(r)
    ensures r == s.(tx := TxNode(s.tx.frame, s.tx.buf), bufs := r.bufs)
    decreases |s.tx.frame| - s.tx.copied
  {
    LeadsStep(TxWork, s);
    if s.tx.copied < |s.tx.frame| {
      r := CopyAlone(CopyIn(s));
      LeadsOn(TxWork, s, CopyIn(s), r);
    } else {
      r := FinishBuf(s);
    }
  }

  /** The steps left inside an enqueue that has found room. */
  function EnqLeft(s: Channel): nat
    requires Shape(s) && s.tx.TxEnq?
  {
    if s.q.producer.PFill? then 5 - s.q.producer.fields else 1
  }

  /** What an enqueue that goes through changes. */
  ghost predicate Enqueued(s: Channel, frame: Frame, b: nat, r: Channel)
    requires Shape(s)
  {
    && r == s.(tx := TxIdle, q := r.q, txCount := s.txCount + 1,
               accepted := s.accepted + [frame], sent := s.sent + [b])
    && r.q.dequeued == s.q.dequeued && r.q.consumer == s.q.consumer
    && r.q.enqueued == s.q.enqueued + [NodeFor(s, frame, b)]
  }

  /** The node is being written, or head is about to be stored, on a ring that is not full. */
  ghost predicate Enqueuing(s: Channel, frame: Frame, b: nat)
    requires Shape(s)
  {
    && s.tx == TxEnq(frame, b) && !Q.Full(s.q)
    && !s.q.producer.PIdle? && s.q.producer.node == NodeFor(s, frame, b)
  }

  lemma EnqueueStep(s: Channel, frame: Frame, b: nat)
    requires Shape(s) && Enqueuing(s, frame, b)
    ensures var r := ContinueEnq(s);
            if s.q.producer.PStore? then Enqueued(s, frame, b, r)
            else
              && Enqueuing(r, frame, b) && EnqLeft(r) < EnqLeft(s)
              && r == s.(q := r.q) && r.q.dequeued == s.q.dequeued && r.q.consumer == s.q.consumer
              && r.q.enqueued == s.q.enqueued
  {
  }

  lemma {:induction false} StoresAlone(s: Channel, frame: Frame, b: nat) returns (r: Channel)
    requires Shape(s) && Enqueuing(s, frame, b)
    ensures TxLeads(s, r) && Enqueued(s, frame, b, r)
    decreases EnqLeft(s)
  {
    EnqueueStep(s, frame, b);
    LeadsStep(TxWork, s);
    r := ContinueEnq(s);
    if !s.q.producer.PStore? {
      var t := StoresAlone(r, frame, b);
      LeadsOn(TxWork, s, r, t);
      r := t;
    }
  }

  lemma EnqueueAlone(s: Channel, frame: Frame, b: nat) returns (r: Channel)
    requires Shape(s) && s.tx == TxNode(frame, b) && s.q.producer.PIdle?
    ensures TxLeads(s, r)
    ensures if Q.Full(s.q) then r == s.(tx := TxFailed(frame, b, QueueFull), q := r.q) && SameHistory(s, r)
            else Enqueued(s, frame, b, r)
  {
    LeadsStep(TxWork, s);
    r := BeginEnq(s);
    if !Q.Full(s.q) {
      var t := StoresAlone(r, frame, b);
      LeadsOn(TxWork, s, r, t);
      r := t;
    }
  }

  ghost predicate SameHistory(s: Channel, r: Channel) {
    r.q.enqueued == s.q.enqueued && r.q.dequeued == s.q.dequeued && r.q.consumer == s.q.consumer
  }

  /** What becomes of a frame in a full length buffer, from the state in which it is taken. */
  ghost predicate Sent(s: Channel, frame: Frame, b: nat, r: Channel)
    requires Shape(s)
  {
    if |frame| > ETH_FRAME_SIZE then r == s.(tx := TxFailed(frame, b, Oversize))
    else if Q.Full(s.q) then
      r == s.(tx := TxFailed(frame, b, QueueFull), q := r.q, bufs := r.bufs) && SameHistory(s, r)
    else
      && r == s.(tx := TxIdle, q := r.q, bufs := r.bufs, txCount := s.txCount + 1,
                 accepted := s.accepted + [frame], sent := s.sent + [b])
      && r.q.dequeued == s.q.dequeued && r.q.consumer == s.q.consumer
      && r.q.enqueued == s.q.enqueued + [NodeFor(s, frame, b)]
  }

  /** The part after the buffer was taken. */
  lemma SendFilled(s: Channel, frame: Frame, b: nat) returns (r: Channel)
    requires Shape(s) && s.tx == TxFill(frame, b, 0) && s.q.producer.PIdle?
    ensures TxLeads(s, r) && Sent(s, frame, b, r)
  {
    var u := CopyAlone(s);
    r := EnqueueAlone(u, frame, b);
    LeadsOn(TxWork, s, u, r);
  }

  /** The part after the buffer was found; the stores that take it come first. */
  lemma SendFound(s: Channel, frame: Frame, b: nat, t: Channel) returns (r: Channel)
    requires Shape(s) && s.tx == TxTake(frame, b, 0) && s.q.producer.PIdle?
    requires t == TakeQuietly(s)
    ensures TxLeads(s, r) && Shape(t) && Sent(t, frame, b, r)
  {
    TakeAlone(s);
    QuietTake(s);
    r := t;
    if |frame| <= ETH_FRAME_SIZE {
      r := SendFilled(t, frame, b);
      LeadsOn(TxWork, s, t, r);
    }
  }

  /** A search changes the transmitter's place and the error count only. */
  lemma {:induction false} QuietScanOnly(s: Channel)
    requires Shape(s) && s.tx.TxScan?
    ensures var r := ScanQuietly(s); r == s.(tx := r.tx, pool := r.pool)
    decreases ScanLeft(s)
  {
    var r := Scan(s);
    if r.tx.TxScan? && ScanLeft(r) < ScanLeft(s) && 0 <= ScanLeft(s) {
      QuietScanOnly(r);
    }
  }

  /** What the transmitter does with a frame it has read from state `s`. */
  ghost predicate Handled(s: Channel, frame: Frame, r: Channel)
    requires Shape(s)
  {
    && r.cfg == s.cfg && r.delivered == s.delivered && r.rx == s.rx
    && r.q.dequeued == s.q.dequeued && r.q.consumer == s.q.consumer
    && if forall b :: 0 <= b < s.cfg.poolSize ==> s.pool.used[b] then
         r.tx.TxIdle? && r.accepted == s.accepted && r.q == s.q
       else
         exists b: nat :: P.FirstFree(s.pool.used, s.pool.lastAlloc, b) && HandledIn(s, frame, b, r)
  }

  /** It is put in buffer `b`. A frame longer than a payload or a full ring stops the transmitter. Else
      exactly this frame is accepted, with a node that holds the buffer's physical address, the frame's
      length and the count since the last sleep. */
  ghost predicate HandledIn(s: Channel, frame: Frame, b: nat, r: Channel)
    requires Shape(s) && b < s.cfg.poolSize
  {
    && r.pool == P.Take(s.pool, b)
    && if |frame| > ETH_FRAME_SIZE then
         r.tx == TxFailed(frame, b, Oversize) && r.accepted == s.accepted
       else if |Q.Contents(s.q)| == s.q.maxSize - 1 then
         r.tx == TxFailed(frame, b, QueueFull) && r.accepted == s.accepted
       else
         && r.tx.TxIdle? && r.txCount == s.txCount + 1
         && r.accepted == s.accepted + [frame] && r.sent == s.sent + [b]
         && r.q.enqueued == s.q.enqueued
              + [Q.Node(s.cfg.phyBase + BufOffset(s.cfg.poolId, b), |frame|, s.txCount)]
  }

  lemma PhyExactly(c: Config, b: nat)
    requires ValidConfig(c) && b < c.poolSize
    ensures Phy(c, b) == c.phyBase + BufOffset(c.poolId, b)
  {
    assert BufOffset(c.poolId, b) + BUF_BYTES <= (c.poolId + 1) * POOL_BYTES;
    NodeAddressExactly(BufOffset(c.poolId, b), c.txBase, c.phyBase);
  }

  /** Taking the buffer and sending it from a state with the same queue. */
  lemma SentIsHandled(s: Channel, t: Channel, frame: Frame, b: nat, r: Channel)
    requires Shape(s) && Shape(t) && b < s.cfg.poolSize
    requires t == s.(tx := t.tx, pool := P.Take(s.pool, b))
    requires Sent(t, frame, b, r)
    requires Q.Full(s.q) <==> |Q.Contents(s.q)| == s.q.maxSize - 1
    ensures HandledIn(s, frame, b, r)
    ensures r.cfg == s.cfg && r.delivered == s.delivered && r.rx == s.rx
    ensures r.q.dequeued == s.q.dequeued && r.q.consumer == s.q.consumer
  {
    PhyExactly(s.cfg, b);
  }

  /** A search from the last allocation, and what follows it. */
  lemma SearchAlone(s: Channel, t: Channel, frame: Frame) returns (r: Channel)
    requires Shape(s) && s.tx.TxIdle? && s.q.producer.PIdle?
    requires Shape(t) && t == s.(tx := TxScan(frame, s.pool.lastAlloc, false))
    requires Q.Full(s.q) <==> |Q.Contents(s.q)| == s.q.maxSize - 1
    ensures TxLeads(t, r) && Handled(s, frame, r)
  {
    assert ProbedUsed(t);
    QuietScanFinds(t);
    QuietScanOnly(t);
    ScanAlone(t);
    r := ScanQuietly(t);
    if r.tx.TxTake? {
      var u, b := r, r.tx.buf;
      r := SendFound(u, frame, b, TakeQuietly(u));
      LeadsOn(TxWork, t, u, r);
      QuietTake(u);
      SentIsHandled(s, TakeQuietly(u), frame, b, r);
    }
  }

  /** An idle transmitter that reads a frame and is then left undisturbed handles exactly that frame: it
      gives it up exactly when every buffer is in use, and else sends it in the cyclically first free
      buffer, unless it is too long or the ring is full. */
  lemma QuietSend(s: Channel, frame: Frame) returns (r: Channel)
    requires Inv(s) && s.tx.TxIdle? && frame != []
    ensures TxLeads(Apply(s, TxRead(frame)), r) && Handled(s, frame, r)
  {
    Q.IndexTests(s.q);
    r := SearchAlone(s, Apply(s, TxRead(frame)), frame);
  }

  // ----- the receiver undisturbed -----

  /** The receiver's next step. */
  function RxNext(s: Channel): Step {
    match s.rx
    case RxIdle => RxDeqStep
    case RxLoad => RxLoadAddr
    case RxLen(_) => RxLoadLen
    case RxCopy(_, len, data) => if |data| < len then RxCopyByte else RxWrite
    case RxFree(_) => RxDropRef
    case RxClear(_) => RxClearUsed
    case RxCharge(_) => RxChargePool
    case RxFault => RxDropRef
  }

  /** One step of the receiver. */
  ghost function RxWork(s: Channel): Channel {
    if Shape(s) then Apply(s, RxNext(s)) else s
  }

  lemma RxWorkKeeps(s: Channel)
    requires Inv(s)
    ensures Inv(RxWork(s))
  {
    StepKeeps(s, RxNext(s));
  }

  /** The receiver, left undisturbed in `s`, comes to `r`. */
  ghost predicate RxLeads(s: Channel, r: Channel) { Leads(RxWork, s, r) }

  lemma RxLeadsKeeps(s: Channel, r: Channel)
    requires Inv(s) && RxLeads(s, r)
    ensures Inv(r)
  {
    forall t | Inv(t) ensures Inv(RxWork(t)) { RxWorkKeeps(t); }
    LeadsKeeps(RxWork, Inv, s, r);
  }

  /** What the receiver never touches, and the queue while it works on a frame. */
  ghost predicate SameButRx(s: Channel, r: Channel) {
    && r.cfg == s.cfg && r.q == s.q && r.tx == s.tx && r.bufs == s.bufs
    && r.accepted == s.accepted && r.sent == s.sent && r.txCount == s.txCount
  }

  /** Distance of the receiver from its idle state. */
  function RxRank(s: Channel): nat {
    match s.rx
    case RxLoad => 6
    case RxLen(_) => 5
    case RxCopy(_, _, _) => 4
    case RxFree(_) => 3
    case RxClear(_) => 2
    case RxCharge(_) => 1
    case _ => 0
  }

  function RxBytesLeft(s: Channel): int { if s.rx.RxCopy? then s.rx.len - |s.rx.data| else 0 }

  /** One step brings a busy receiver nearer to its idle state; the step into it charges the free. */
  lemma RxProgress(s: Channel)
    requires Shape(s) && !s.rx.RxIdle? && !s.rx.RxFault? && (s.rx.RxLoad? ==> s.q.pointer.Some?)
    ensures var r := Apply(s, RxNext(s));
            && SameButRx(s, r)
            && r.pool.frees == s.pool.frees + (if s.rx.RxCharge? then 1 else 0)
            && (r.rx.RxIdle? <==> s.rx.RxCharge?)
            && (r.rx.RxFault?
                || RxRank(r) < RxRank(s)
                || (RxRank(r) == RxRank(s) && 0 <= RxBytesLeft(r) < RxBytesLeft(s)))
  {
  }

  /** A busy receiver, left undisturbed, finishes its frame and becomes idle. */
  lemma {:induction false} RxFinishes(s: Channel) returns (r: Channel)
    requires Inv(s) && !s.rx.RxIdle?
    ensures RxLeads(s, r) && Inv(r) && r.rx.RxIdle? && SameButRx(s, r)
    ensures r.pool.frees == s.pool.frees + 1
    decreases RxRank(s), RxBytesLeft(s)
  {
    RxProgress(s);
    LeadsStep(RxWork, s);
    RxWorkKeeps(s);
    var t := RxWork(s);
    if t.rx.RxIdle? {
      r := t;
    } else {
      r := RxFinishes(t);
      LeadsOn(RxWork, s, t, r);
    }
  }

  /** Distance of the consumer from the end of a dequeue that finds a node. */
  function DeqRank(q: Q.Queue): nat {
    match q.consumer
    case CIdle => 4
    case CHeadCheck => 3
    case CTake => 2
    case CMove(_) => 1
  }

  lemma ConsumerProgress(q: Q.Queue)
    requires Q.Inv(q) && |q.dequeued| < |q.enqueued|
    ensures var r := Q.Apply(q, ConsumerStep(q));
            && r.enqueued == q.enqueued
            && if q.consumer.CMove? then r.consumer.CIdle? && |r.dequeued| == |q.dequeued| + 1
               else r.dequeued == q.dequeued && DeqRank(r) < DeqRank(q)
  {
    Q.IndexTests(q);
  }

  lemma DequeueStep(s: Channel)
    requires Shape(s) && Q.Inv(s.q) && s.rx.RxIdle? && |s.q.dequeued| < |s.q.enqueued|
    ensures Dequeue(s) == RxWork(s) && Q.Inv(Dequeue(s).q)
    ensures var r := Dequeue(s);
            && r == s.(q := r.q, rx := if s.q.consumer.CMove? then RxLoad else RxIdle)
            && r.q.enqueued == s.q.enqueued
            && if s.q.consumer.CMove? then r.q.consumer.CIdle? && |r.q.dequeued| == |s.q.dequeued| + 1
               else r.q.dequeued == s.q.dequeued && DeqRank(r.q) < DeqRank(s.q)
  {
    ConsumerProgress(s.q);
    Q.StepKeeps(s.q, ConsumerStep(s.q));
  }

  /** The dequeue of an undisturbed receiver, wherever it stands in it, takes a node if one is there. */
  lemma {:induction false} DequeueAlone(s: Channel) returns (r: Channel)
    requires Shape(s) && Q.Inv(s.q) && s.rx.RxIdle? && |s.q.dequeued| < |s.q.enqueued|
    ensures RxLeads(s, r) && r.rx.RxLoad? && r == s.(q := r.q, rx := r.rx)
    ensures r.q.enqueued == s.q.enqueued && |r.q.dequeued| == |s.q.dequeued| + 1 && r.q.consumer.CIdle?
    decreases DeqRank(s.q)
  {
    DequeueStep(s);
    LeadsStep(RxWork, s);
    r := Dequeue(s);
    if !s.q.consumer.CMove? {
      var t := r;
      r := DequeueAlone(t);
      LeadsOn(RxWork, s, t, r);
    }
  }

  /** The receiver took one frame: the oldest on the way, and freed its buffer. */
  ghost predicate Received(s: Channel, r: Channel)
    requires Shape(s) && Shape(r)
  {
    && InFlight(s) != []
    && r.delivered == s.delivered + [InFlight(s)[0]]
    && InFlight(r) == InFlight(s)[1..]
    && r.accepted == s.accepted && r.tx == s.tx && r.txCount == s.txCount
    && r.rx.RxIdle? && r.q.consumer.CIdle?
    && r.pool.frees == s.pool.frees + 1
  }

  lemma InFlightLength(s: Channel)
    requires Inv(s) && s.rx.RxIdle?
    ensures |InFlight(s)| == |s.q.enqueued| - |s.q.dequeued| && |s.delivered| == |s.q.dequeued|
    ensures s.accepted == s.delivered + InFlight(s)
  {
    InFlightIsRest(s);
    QueuedLength(s);
    DeliveredSoFar(s);
  }

  lemma OneMoreDelivered<T>(before: seq<T>, flight: seq<T>, after: seq<T>, left: seq<T>)
    requires before + flight == after + left && |after| == |before| + 1 && flight != []
    ensures after == before + [flight[0]] && left == flight[1..]
  {
    assert after == (before + flight)[..|before| + 1];
    assert left == (before + flight)[|before| + 1..];
  }

  /** An idle receiver that is left undisturbed delivers the oldest frame on the way. */
  lemma QuietReceive(s: Channel) returns (r: Channel)
    requires Inv(s) && s.rx.RxIdle? && InFlight(s) != []
    ensures RxLeads(s, r) && Inv(r) && Received(s, r)
  {
    InFlightLength(s);
    var t := DequeueAlone(s);
    RxLeadsKeeps(s, t);
    r := RxFinishes(t);
    LeadsOn(RxWork, s, t, r);
    InFlightLength(r);
    OneMoreDelivered(s.delivered, InFlight(s), r.delivered, InFlight(r));
  }

  /** With nothing on the way a poll changes nothing but its count. */
  lemma QuietPoll(s: Channel)
    requires Inv(s) && s.rx.RxIdle? && s.q.consumer.CIdle? && InFlight(s) == []
    ensures RxWork(RxWork(s)) == s.(q := s.q.(emptyPolls := s.q.emptyPolls + 1))
  {
    InFlightLength(s);
    Q.IndexTests(s.q);
    assert RxWork(s) == s.(q := s.q.(consumer := Q.CHeadCheck));
  }

  // ----- a frame crosses a quiet channel -----

  /** With nothing on the way and both tasks idle every buffer is free. */
  lemma QuietPoolFree(s: Channel, b: nat)
    requires Inv(s) && s.tx.TxIdle? && s.rx.RxIdle? && InFlight(s) == [] && b < s.cfg.poolSize
    ensures !s.pool.used[b]
  {
    InFlightLength(s);
    assert forall i :: !Carries(s, i, b);
  }

  lemma TxLeadsKeeps(s: Channel, r: Channel)
    requires Inv(s) && TxLeads(s, r)
    ensures Inv(r)
  {
    forall t | Inv(t) ensures Inv(TxWork(t)) { TxWorkKeeps(t); }
    LeadsKeeps(TxWork, Inv, s, r);
  }

  /** A frame just accepted into a channel with nothing on the way is what is on the way. */
  lemma AcceptedAlone(s: Channel, frame: Frame, sent: Channel)
    requires Inv(s) && s.rx.RxIdle? && InFlight(s) == []
    requires Inv(sent) && sent.rx.RxIdle? && sent.delivered == s.delivered
    requires sent.accepted == s.accepted + [frame]
    ensures InFlight(sent) == [frame]
  {
    InFlightLength(s);
    InFlightLength(sent);
    assert InFlight(sent) == sent.accepted[|s.delivered|..];
  }

  /** Through a channel at rest any frame of at most 1518 bytes comes out as it went in: the undisturbed
      steps of the transmitter, then those of the receiver, deliver it and leave the channel at rest. */
  lemma FrameCrosses(s: Channel, frame: Frame) returns (sent: Channel, r: Channel)
    requires Inv(s) && s.tx.TxIdle? && s.rx.RxIdle? && InFlight(s) == [] && s.cfg.poolSize > 0
    requires 0 < |frame| <= ETH_FRAME_SIZE
    ensures TxLeads(Apply(s, TxRead(frame)), sent) && sent.tx.TxIdle? && Inv(sent)
    ensures sent.accepted == s.accepted + [frame] && InFlight(sent) == [frame]
    ensures RxLeads(sent, r) && Inv(r) && r.tx.TxIdle? && r.rx.RxIdle? && InFlight(r) == []
    ensures r.delivered == s.delivered + [frame]
  {
    QuietPoolFree(s, 0);
    InFlightLength(s);
    Q.IndexTests(s.q);
    sent := QuietSend(s, frame);
    StepKeeps(s, TxRead(frame));
    TxLeadsKeeps(Apply(s, TxRead(frame)), sent);
    AcceptedAlone(s, frame, sent);
    r := QuietReceive(sent);
  }
}
