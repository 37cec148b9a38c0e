/** What every run of the inter-core channel keeps. */
module TapChannelProof {
  import opened Common
  import opened RingIndex
  import opened TapAddress
  import opened TapChannel
  import Q = SpscQueue
  import P = BufPool

  /** The buffer the transmitter holds, if any. */
  function TxHeld(s: Channel): Option<nat> {
    match s.tx
    case TxTake(_, b, stores) => if stores > 0 then Some(b) else None
    case TxFill(_, b, _) => Some(b)
    case TxNode(_, b) => Some(b)
    case TxEnq(_, b) => Some(b)
    case TxFailed(_, b, _) => Some(b)
    case _ => None
  }

  /** The buffer the transmitter found free and has not marked yet, if any. */
  function TxFound(s: Channel): Option<nat> {
    if s.tx.TxTake? && s.tx.stores == 0 then Some(s.tx.buf) else None
  }

  /** The buffer marked in use whose reference is not counted yet, if any. */
  function TxUncounted(s: Channel): Option<nat> {
    if s.tx.TxTake? && s.tx.stores == 1 then Some(s.tx.buf) else None
  }

  /** The receiver holds the buffer of the latest dequeued node. */
  predicate RxHolds(s: Channel) {
    s.rx.RxLoad? || s.rx.RxLen? || s.rx.RxCopy? || s.rx.RxFree? || s.rx.RxClear?
  }

  /** The receiver has not yet written out the latest dequeued frame. */
  predicate RxPending(s: Channel) { s.rx.RxLoad? || s.rx.RxLen? || s.rx.RxCopy? }

  function Taken(s: Channel): nat { |s.q.dequeued| }

  /** First position of `sent` whose buffer is still in use. */
  function Low(s: Channel): nat {
    if RxHolds(s) && Taken(s) > 0 then Taken(s) - 1 else Taken(s)
  }

  /** Position `i` of `sent` is in use and carries buffer `b`. */
  predicate Carries(s: Channel, i: int, b: nat) {
    Low(s) <= i < |s.sent| && s.sent[i] == b
  }

  ghost predicate Logs(s: Channel) {
    && |s.sent| == |s.accepted| == |s.q.enqueued|
    && (forall i :: 0 <= i < |s.sent| ==> s.sent[i] < s.cfg.poolSize)
    && (forall i :: 0 <= i < |s.sent| ==> s.q.enqueued[i].dataBuffer == Phy(s.cfg, s.sent[i]))
    && (forall i :: 0 <= i < |s.sent| ==> s.q.enqueued[i].dataBufferLen == |s.accepted[i]|)
  }

  /** Both tasks are where their queue program counters say. */
  ghost predicate Control(s: Channel) {
    && (s.tx.TxEnq? ==> (s.q.producer.PFill? || s.q.producer.PStore?)
                        && s.q.producer.node == NodeFor(s, s.tx.frame, s.tx.buf))
    && (!s.tx.TxEnq? ==> s.q.producer.PIdle?)
    && (!s.rx.RxIdle? ==> s.q.consumer.CIdle?)
    && !s.rx.RxFault?
    && (RxHolds(s) ==> Taken(s) > 0 && s.q.pointer.Some?)
  }

  ghost predicate Pointers(s: Channel) {
    (s.rx.RxLen? || s.rx.RxCopy? || s.rx.RxFree? || s.rx.RxClear?) ==>
      0 < Taken(s) <= |s.sent| && Deref(s.cfg, s.rx.ptr) == Some(s.sent[Taken(s) - 1])
  }

  /** Every buffer in use is in exactly one place. */
  ghost predicate Owned(s: Channel)
    requires Shape(s)
  {
    && (forall i, j :: Low(s) <= i < j < |s.sent| ==> s.sent[i] != s.sent[j])
    && (forall i :: TxHeld(s).Some? && Low(s) <= i < |s.sent| ==> s.sent[i] != TxHeld(s).value)
    && (forall b :: 0 <= b < s.cfg.poolSize ==>
          (s.pool.used[b] <==> TxHeld(s) == Some(b) || exists i :: Carries(s, i, b)))
    && (TxFound(s).Some? ==> !s.pool.used[s.tx.buf])
  }

  /** The use flag of buffer `b` and its reference count are between two stores. */
  predicate Between(s: Channel, b: nat) {
    TxUncounted(s) == Some(b) || (s.rx.RxClear? && Carries(s, Taken(s) - 1, b))
  }

  ghost predicate Counts(s: Channel)
    requires Shape(s)
  {
    forall b :: 0 <= b < s.cfg.poolSize ==>
      s.pool.ref[b] == if s.pool.used[b] && !Between(s, b) then 1 else 0
  }

  predicate Holds(buf: Buffer, frame: Frame) {
    |frame| <= |buf.payload| && buf.len == |frame| && buf.payload[..|frame|] == frame
  }

  ghost predicate Data(s: Channel)
    requires Shape(s) && Logs(s)
  {
    && (forall i :: Low(s) <= i < |s.sent| ==> Holds(s.bufs[s.sent[i]], s.accepted[i]))
    && (s.tx.TxFill? ==> s.bufs[s.tx.buf].payload[..s.tx.copied] == s.tx.frame[..s.tx.copied])
    && (s.tx.TxNode? || s.tx.TxEnq? ==> Holds(s.bufs[s.tx.buf], s.tx.frame))
  }

  ghost predicate Delivery(s: Channel)
    requires Taken(s) <= |s.accepted|
  {
    && s.delivered == s.accepted[..if RxPending(s) && Taken(s) > 0 then Taken(s) - 1 else Taken(s)]
    && (s.rx.RxCopy? ==> 0 < Taken(s) && s.rx.len == |s.accepted[Taken(s) - 1]| <= ETH_FRAME_SIZE
                         && s.rx.data <= s.accepted[Taken(s) - 1])
  }

  /** Everything but the queue's own invariant. It reads of the queue only its history
      and the two program counters. */
  ghost predicate Rest(s: Channel) {
    && Shape(s)
    && Logs(s)
    && Taken(s) <= |s.sent|
    && Control(s)
    && Pointers(s)
    && Owned(s)
    && Counts(s)
    && Data(s)
    && Delivery(s)
  }

  ghost predicate Inv(s: Channel) {
    && Rest(s)
    && Q.Inv(s.q)
  }

  /** Ownership depends only on these parts of the state. */
  lemma OwnershipSame(s: Channel, r: Channel)
    requires Shape(s) && Shape(r) && Owned(s) && Counts(s)
    requires r.cfg == s.cfg && r.sent == s.sent && Low(r) == Low(s) && Taken(r) == Taken(s)
    requires TxHeld(r) == TxHeld(s) && r.rx.RxClear? == s.rx.RxClear?
    requires TxFound(r).None? || r.tx == s.tx
    requires TxUncounted(r) == TxUncounted(s)
    requires r.pool.used == s.pool.used && r.pool.ref == s.pool.ref
    ensures Owned(r) && Counts(r)
  {
    assert forall i, c :: Carries(r, i, c) == Carries(s, i, c);
  }

  /** A node's address leads the receiver back to the buffer it was made from. */
  lemma AddressReturns(c: Config, b: nat)
    requires ValidConfig(c) && b < c.poolSize
    ensures Target(c, Phy(c, b)) == c.rxBase + BufOffset(c.poolId, b)
    ensures Deref(c, Target(c, Phy(c, b))) == Some(b)
  {
    assert BufOffset(c.poolId, b) + BUF_BYTES <= (c.poolId + 1) * POOL_BYTES;
    RoundTripIffBelow4G(BufOffset(c.poolId, b), c.txBase, c.phyBase, c.rxBase);
    BufAtOffset(c.poolId, b, c.rxBase);
  }

  lemma StartInv(c: Config, m: Memory)
    requires ValidConfig(c) && ValidMemory(c, m)
    ensures Inv(Start(c, m))
  {
    assert forall b :: 0 <= b < c.poolSize ==> !Start(c, m).pool.used[b];
  }

  // ----- transmitter steps -----

  /** A probe that finds a free buffer changes no ownership yet. */
  lemma ScanFinds(s: Channel)
    requires Rest(s) && s.tx.TxScan? && Scan(s).tx.TxTake?
    ensures Rest(Scan(s))
  {
    var r := Scan(s);
    assert Low(r) == Low(s);
    assert forall i, c :: Carries(r, i, c) == Carries(s, i, c);
  }

  lemma FoundUnsent(s: Channel)
    requires Rest(s) && TxFound(s).Some?
    ensures TxHeld(s).None? && forall i :: Low(s) <= i < |s.sent| ==> s.sent[i] != s.tx.buf
  {
    forall i | Low(s) <= i < |s.sent|
      ensures s.sent[i] != s.tx.buf
    {
      assert Carries(s, i, s.sent[i]);
    }
  }

  /** Marking a free buffer makes the transmitter its only owner. */
  lemma MarkOwned(s: Channel)
    requires Rest(s) && TxFound(s).Some?
    ensures Owned(TakeStep(s)) && Counts(TakeStep(s))
  {
    FoundUnsent(s);
    var r, b := TakeStep(s), s.tx.buf;
    assert Low(r) == Low(s) && TxHeld(r) == Some(b) == TxUncounted(r);
    assert forall i, c :: Carries(r, i, c) == Carries(s, i, c);
    assert r.pool == s.pool.(used := s.pool.used[b := true]);
  }

  lemma MarkKeeps(s: Channel)
    requires Rest(s) && TxFound(s).Some?
    ensures Rest(TakeStep(s))
  {
    MarkOwned(s);
    assert Low(TakeStep(s)) == Low(s);
  }

  /** The transmitter's reference to the buffer it holds. */
  lemma CountKeeps(s: Channel)
    requires Rest(s) && TxUncounted(s).Some?
    ensures Rest(TakeStep(s))
  {
    var r := TakeStep(s);
    assert Low(r) == Low(s);
    assert forall i, c :: Carries(r, i, c) == Carries(s, i, c);
    assert !exists i :: Carries(s, i, s.tx.buf);
  }

  lemma FinishTakeKeeps(s: Channel)
    requires Rest(s) && s.tx.TxTake? && s.tx.stores > 1
    ensures Rest(TakeStep(s))
  {
    OwnershipSame(s, TakeStep(s));
  }

  /** Searching, starting to search or going idle concerns nobody else. */
  lemma SearchKeeps(s: Channel, r: Channel)
    requires Rest(s) && Shape(r)
    requires s.tx.TxIdle? || s.tx.TxScan?
    requires r.tx.TxIdle? || r.tx.TxScan?
    requires r == s.(tx := r.tx, txCount := r.txCount, pool := s.pool.(getErrs := r.pool.getErrs))
    ensures Rest(r)
  {
    OwnershipSame(s, r);
  }

  lemma ScanMovesOn(s: Channel)
    requires Rest(s) && s.tx.TxScan? && !Scan(s).tx.TxTake?
    ensures Rest(Scan(s))
  {
    SearchKeeps(s, Scan(s));
  }

  lemma CopyInKeeps(s: Channel)
    requires Rest(s) && s.tx.TxFill? && s.tx.copied < |s.tx.frame|
    ensures Rest(CopyIn(s))
  {
    var r := CopyIn(s);
    var b, k := s.tx.buf, s.tx.copied;
    OwnershipSame(s, r);
    assert r.bufs[b].payload[..k + 1] == s.bufs[b].payload[..k] + [s.tx.frame[k]];
    assert s.tx.frame[..k + 1] == s.tx.frame[..k] + [s.tx.frame[k]];
  }

  lemma FinishBufKeeps(s: Channel)
    requires Rest(s)
    ensures Rest(Apply(s, TxFinishBuf))
  {
    OwnershipSame(s, Apply(s, TxFinishBuf));
  }

  lemma BeginEnqKeeps(s: Channel)
    requires Rest(s) && s.tx.TxNode?
    ensures Rest(BeginEnq(s))
  {
    var r := BeginEnq(s);
    assert r.q == s.q.(producer := r.q.producer, rejected := r.q.rejected);
    OwnershipSame(s, r);
  }

  lemma HandOverCarries(s: Channel)
    requires Rest(s) && s.tx.TxEnq? && s.q.producer.PStore?
    ensures var r := ContinueEnq(s);
            && Low(r) == Low(s) && Taken(r) == Taken(s)
            && forall i, c :: Carries(r, i, c) <==> Carries(s, i, c) || (i == |s.sent| && c == s.tx.buf)
  {
  }

  /** Storing head hands the transmitter's buffer over to the queue. */
  lemma HandOver(s: Channel)
    requires Rest(s) && s.tx.TxEnq? && s.q.producer.PStore?
    ensures Owned(ContinueEnq(s)) && Counts(ContinueEnq(s))
  {
    var r := ContinueEnq(s);
    HandOverCarries(s);
    assert Carries(r, |s.sent|, s.tx.buf);
    assert r.pool == s.pool && TxHeld(r).None? && TxHeld(s) == Some(s.tx.buf);
    forall c | 0 <= c < s.cfg.poolSize
      ensures r.pool.used[c] <==> exists i :: Carries(r, i, c)
    {
      if i :| Carries(s, i, c) {
        assert Carries(r, i, c);
      }
    }
  }

  lemma HandOverLogs(s: Channel)
    requires Rest(s) && s.tx.TxEnq? && s.q.producer.PStore?
    ensures Logs(ContinueEnq(s)) && Data(ContinueEnq(s))
  {
    var r := ContinueEnq(s);
    assert r.q.enqueued == s.q.enqueued + [NodeFor(s, s.tx.frame, s.tx.buf)];
    assert Low(r) == Low(s);
  }

  lemma HandOverControl(s: Channel)
    requires Rest(s) && s.tx.TxEnq? && s.q.producer.PStore?
    ensures Control(ContinueEnq(s)) && Pointers(ContinueEnq(s))
  {
  }

  lemma StoreHeadKeeps(s: Channel)
    requires Rest(s) && s.tx.TxEnq? && s.q.producer.PStore?
    ensures Rest(ContinueEnq(s))
  {
    HandOver(s);
    HandOverLogs(s);
    HandOverControl(s);
  }

  lemma EnqFieldKeeps(s: Channel)
    requires Rest(s) && s.tx.TxEnq? && s.q.producer.PFill?
    ensures Rest(ContinueEnq(s))
  {
    OwnershipSame(s, ContinueEnq(s));
  }

  // ----- receiver steps -----

  /** Storing tail hands the oldest queued buffer over to the receiver. */
  lemma StoreTailKeeps(s: Channel)
    requires Rest(s) && s.rx.RxIdle? && s.q.consumer.CMove? && Taken(s) < |s.q.enqueued|
    ensures Rest(Dequeue(s))
  {
    var r := Dequeue(s);
    assert Taken(r) == Taken(s) + 1 && Low(r) == Low(s);
    assert forall i, c :: Carries(r, i, c) == Carries(s, i, c);
  }

  lemma PollKeeps(s: Channel)
    requires Rest(s) && s.rx.RxIdle? && !s.q.consumer.CMove?
    ensures Rest(Dequeue(s))
  {
    OwnershipSame(s, Dequeue(s));
  }

  /** The pointer returned by the dequeue leads to the buffer of the dequeued node. */
  lemma PointerNamesBuffer(s: Channel)
    requires Shape(s) && Logs(s) && Q.Inv(s.q) && s.q.pointer.Some?
    ensures 0 < Taken(s) <= |s.sent|
    ensures Deref(s.cfg, Target(s.cfg, s.q.nodes[s.q.pointer.value].dataBuffer))
         == Some(s.sent[Taken(s) - 1])
  {
    var d := Taken(s) - 1;
    assert s.q.nodes[Slot(d, s.q.maxSize)] == s.q.enqueued[d];
    AddressReturns(s.cfg, s.sent[d]);
  }

  lemma LoadAddrKeeps(s: Channel)
    requires Rest(s)
    requires s.q.pointer.Some? ==>
               0 < Taken(s) <= |s.sent|
               && Deref(s.cfg, Target(s.cfg, s.q.nodes[s.q.pointer.value].dataBuffer))
                  == Some(s.sent[Taken(s) - 1])
    ensures Rest(Apply(s, RxLoadAddr))
  {
    OwnershipSame(s, Apply(s, RxLoadAddr));
  }

  lemma LoadLenKeeps(s: Channel)
    requires Rest(s)
    ensures Rest(Apply(s, RxLoadLen))
  {
    OwnershipSame(s, Apply(s, RxLoadLen));
    if s.rx.RxLen? {
      assert Holds(s.bufs[s.sent[Taken(s) - 1]], s.accepted[Taken(s) - 1]);
    }
  }

  lemma CopyOutKeeps(s: Channel)
    requires Rest(s) && s.rx.RxCopy? && |s.rx.data| < s.rx.len
    ensures Rest(CopyOut(s))
  {
    var d, k := Taken(s) - 1, |s.rx.data|;
    assert Holds(s.bufs[s.sent[d]], s.accepted[d]);
    assert s.bufs[s.sent[d]].payload[..s.rx.len][k] == s.accepted[d][k];
    OwnershipSame(s, CopyOut(s));
  }

  lemma WriteKeeps(s: Channel)
    requires Rest(s)
    ensures Rest(Apply(s, RxWrite))
  {
    var r := Apply(s, RxWrite);
    OwnershipSame(s, r);
    if r != s {
      var d := Taken(s) - 1;
      assert s.rx.data == s.accepted[d];
      assert r.delivered == s.accepted[..d + 1];
    }
  }

  lemma DropCarries(s: Channel)
    requires Rest(s) && s.rx.RxFree?
    ensures Shape(DropRef(s))
    ensures var r, d := DropRef(s), Taken(s) - 1;
            && 0 <= d < |s.sent| && Carries(s, d, s.sent[d])
            && (forall i, c :: Carries(r, i, c) <==> Carries(s, i, c))
            && s.pool.used[s.sent[d]]
            && r.pool == s.pool.(ref := s.pool.ref[s.sent[d] := 0])
            && r == s.(pool := r.pool, rx := RxClear(s.rx.ptr))
  {
    var b := s.sent[Taken(s) - 1];
    assert Carries(s, Taken(s) - 1, b);
    assert !Between(s, b) && s.pool.ref[b] == 1;
  }

  lemma DropOwned(s: Channel)
    requires Rest(s) && s.rx.RxFree?
    ensures Owned(DropRef(s)) && Counts(DropRef(s))
  {
    DropCarries(s);
    var r := DropRef(s);
    assert Low(r) == Low(s) && Taken(r) == Taken(s) && TxHeld(r) == TxHeld(s);
    assert forall c :: Between(r, c) <==> Between(s, c) || c == s.sent[Taken(s) - 1];
  }

  lemma DropRefKeeps(s: Channel)
    requires Rest(s) && s.rx.RxFree?
    ensures Rest(DropRef(s))
  {
    DropCarries(s);
    DropOwned(s);
  }

  lemma ClearCarries(s: Channel)
    requires Rest(s) && s.rx.RxClear?
    ensures Shape(ClearUsed(s))
    ensures var r, d := ClearUsed(s), Taken(s) - 1;
            && 0 <= d < |s.sent| && Carries(s, d, s.sent[d])
            && (forall i, c :: Carries(r, i, c) <==> Carries(s, i, c) && i != d)
            && r.pool == s.pool.(used := s.pool.used[s.sent[d] := false])
            && r == s.(pool := r.pool, rx := RxCharge(s.rx.ptr))
  {
    assert Carries(s, Taken(s) - 1, s.sent[Taken(s) - 1]);
  }

  /** Clearing the use flag ends the receiver's ownership of its buffer and no other. */
  lemma ClearOwned(s: Channel)
    requires Rest(s) && s.rx.RxClear?
    ensures Owned(ClearUsed(s)) && Counts(ClearUsed(s))
  {
    ClearCarries(s);
    var r, d := ClearUsed(s), Taken(s) - 1;
    var b := s.sent[d];
    assert Low(r) == d + 1 && TxHeld(r) == TxHeld(s) != Some(b);
    forall c | 0 <= c < s.cfg.poolSize
      ensures r.pool.used[c] <==> TxHeld(r) == Some(c) || exists i :: Carries(r, i, c)
    {
      if i :| Carries(s, i, c) {
        assert c != b ==> Carries(r, i, c);
      }
    }
    assert Between(s, b) && r.pool.ref[b] == 0;
  }

  lemma ClearUsedKeeps(s: Channel)
    requires Rest(s) && s.rx.RxClear?
    ensures Rest(ClearUsed(s))
  {
    ClearCarries(s);
    ClearOwned(s);
  }

  lemma ReadFrameKeeps(s: Channel, frame: Frame)
    requires Rest(s)
    ensures Rest(Apply(s, TxRead(frame)))
  {
    if s.tx.TxIdle? {
      SearchKeeps(s, Apply(s, TxRead(frame)));
    }
  }

  lemma SleepKeeps(s: Channel)
    requires Rest(s)
    ensures Rest(Apply(s, TxSleep))
  {
    if s.tx.TxIdle? {
      SearchKeeps(s, Apply(s, TxSleep));
    }
  }

  lemma ChargeKeeps(s: Channel)
    requires Rest(s)
    ensures Rest(Apply(s, RxChargePool))
  {
    OwnershipSame(s, Apply(s, RxChargePool));
  }

  lemma QueueKeeps(s: Channel, step: Step)
    requires Inv(s)
    ensures Q.Inv(Apply(s, step).q)
  {
    match step
    case TxBeginEnq =>
      if s.tx.TxNode? { Q.StepKeeps(s.q, Q.BeginEnq(NodeFor(s, s.tx.frame, s.tx.buf))); }
    case TxEnqStep => Q.StepKeeps(s.q, ProducerStep(s.q));
    case RxDeqStep => Q.StepKeeps(s.q, ConsumerStep(s.q));
    case _ =>
  }

  predicate OfTransmitter(step: Step) {
    step.TxRead? || step.TxSleep? || step.TxScanStep? || step.TxTakeStep? || step.TxCopyByte? || step.TxFinishBuf?
    || step.TxBeginEnq? || step.TxEnqStep?
  }

  lemma TransmitKeeps(s: Channel, step: Step)
    requires Rest(s) && OfTransmitter(step)
    ensures Rest(Apply(s, step))
  {
    match step
    case TxRead(frame) => ReadFrameKeeps(s, frame);
    case TxSleep => SleepKeeps(s);
    case TxScanStep =>
      if s.tx.TxScan? {
        if Scan(s).tx.TxTake? { ScanFinds(s); } else { ScanMovesOn(s); }
      }
    case TxTakeStep =>
      if s.tx.TxTake? {
        match s.tx.stores
        case 0 => MarkKeeps(s);
        case 1 => CountKeeps(s);
        case _ => FinishTakeKeeps(s);
      }
    case TxCopyByte => if s.tx.TxFill? && s.tx.copied < |s.tx.frame| { CopyInKeeps(s); }
    case TxFinishBuf => FinishBufKeeps(s);
    case TxBeginEnq => if s.tx.TxNode? { BeginEnqKeeps(s); }
    case TxEnqStep =>
      if s.tx.TxEnq? {
        if s.q.producer.PStore? { StoreHeadKeeps(s); } else { EnqFieldKeeps(s); }
      }
  }

  lemma ReceiveKeeps(s: Channel, step: Step)
    requires Inv(s) && !OfTransmitter(step)
    ensures Rest(Apply(s, step))
  {
    match step
    case RxDeqStep =>
      if s.rx.RxIdle? {
        if s.q.consumer.CMove? { StoreTailKeeps(s); } else { PollKeeps(s); }
      }
    case RxLoadAddr =>
      if s.q.pointer.Some? { PointerNamesBuffer(s); }
      LoadAddrKeeps(s);
    case RxLoadLen => LoadLenKeeps(s);
    case RxCopyByte => if s.rx.RxCopy? && |s.rx.data| < s.rx.len { CopyOutKeeps(s); }
    case RxWrite => WriteKeeps(s);
    case RxDropRef => if s.rx.RxFree? { DropRefKeeps(s); }
    case RxClearUsed => if s.rx.RxClear? { ClearUsedKeeps(s); }
    case RxChargePool => ChargeKeeps(s);
  }

  lemma StepKeeps(s: Channel, step: Step)
    requires Inv(s)
    ensures Inv(Apply(s, step))
  {
    QueueKeeps(s, step);
    if OfTransmitter(step) {
      TransmitKeeps(s, step);
    } else {
      ReceiveKeeps(s, step);
    }
  }

  /** Every interleaving keeps the invariant. */
  lemma {:induction false} RunKeeps(c: Config, m: Memory, steps: seq<Step>)
    requires ValidConfig(c) && ValidMemory(c, m)
    ensures Inv(Run(c, m, steps))
  {
    if steps == [] {
      StartInv(c, m);
    } else {
      RunKeeps(c, m, steps[..|steps| - 1]);
      StepKeeps(Run(c, m, steps[..|steps| - 1]), steps[|steps| - 1]);
    }
  }
}
