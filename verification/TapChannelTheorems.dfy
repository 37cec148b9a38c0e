/** The main results about the inter-core channel, stated on what memory physically holds. */
module TapChannelTheorems {
  import opened Common
  import opened Iteration
  import opened TapAddress
  import opened TapChannel
  import opened TapChannelProof
  import Q = SpscQueue
  import P = BufPool

  /** The pool buffer a node names, as the receiver resolves its address. */
  function Names(c: Config, node: Q.Node): Option<nat> { Deref(c, Target(c, node.dataBuffer)) }

  /** The frame lying in the buffer a node names. */
  function FrameBehind(s: Channel, node: Q.Node): Frame
    requires Shape(s)
  {
    var b := Names(s.cfg, node);
    if b.Some? && s.bufs[b.value].len <= ETH_FRAME_SIZE
    then s.bufs[b.value].payload[..s.bufs[b.value].len]
    else []
  }

  function FramesBehind(s: Channel, nodes: seq<Q.Node>): (r: seq<Frame>)
    requires Shape(s)
  {
    seq(|nodes|, k requires 0 <= k < |nodes| => FrameBehind(s, nodes[k]))
  }

  /** Frames between the two tasks: the one the receiver is copying, then those queued. */
  function InFlight(s: Channel): (r: seq<Frame>)
    requires Shape(s)
  {
    (if RxPending(s) && s.q.pointer.Some?
     then [FrameBehind(s, s.q.nodes[s.q.pointer.value])] else [])
    + FramesBehind(s, Q.Contents(s.q))
  }

  /** The length in each queued node is that of the frame behind it. */
  ghost predicate LengthsMatch(s: Channel)
    requires Shape(s)
  {
    forall k :: 0 <= k < |Q.Contents(s.q)| ==>
      Q.Contents(s.q)[k].dataBufferLen == |FrameBehind(s, Q.Contents(s.q)[k])|
  }

  /** The buffer in the receiver's hands: the one its node pointer leads to. */
  function RxHeld(s: Channel): Option<nat>
    requires Shape(s)
  {
    if RxHolds(s) && s.q.pointer.Some? then Names(s.cfg, s.q.nodes[s.q.pointer.value]) else None
  }

  /** How many of the nodes name buffer `b`. */
  function CountNaming(c: Config, nodes: seq<Q.Node>, b: nat): nat {
    if nodes == [] then 0
    else (if Names(c, nodes[0]) == Some(b) then 1 else 0) + CountNaming(c, nodes[1..], b)
  }

  /** The number of places buffer `b` is in. */
  function Places(s: Channel, b: nat): nat
    requires Shape(s)
  {
    (if TxHeld(s) == Some(b) then 1 else 0)
    + (if RxHeld(s) == Some(b) then 1 else 0)
    + CountNaming(s.cfg, Q.Contents(s.q), b)
  }

  // ----- linking memory to the history -----

  /** The k-th queued node names the buffer that carried the corresponding accepted frame. */
  lemma QueuedNode(s: Channel, k: nat)
    requires Inv(s) && k < |Q.Contents(s.q)|
    ensures |Q.Contents(s.q)| == |s.sent| - Taken(s)
    ensures Names(s.cfg, Q.Contents(s.q)[k]) == Some(s.sent[Taken(s) + k])
    ensures Q.Contents(s.q)[k].dataBufferLen == |s.accepted[Taken(s) + k]|
  {
    Q.ContentsAreOutstanding(s.q);
    assert Q.Contents(s.q)[k] == s.q.enqueued[Taken(s) + k];
    AddressReturns(s.cfg, s.sent[Taken(s) + k]);
  }

  lemma QueuedLength(s: Channel)
    requires Inv(s)
    ensures |Q.Contents(s.q)| == |s.sent| - Taken(s)
  {
    Q.IndexTests(s.q);
  }

  /** The queued nodes lead to the accepted frames not yet taken, and carry their lengths. */
  lemma QueuedFrames(s: Channel)
    requires Inv(s)
    ensures FramesBehind(s, Q.Contents(s.q)) == s.accepted[Taken(s)..]
    ensures LengthsMatch(s)
  {
    QueuedLength(s);
    forall k | 0 <= k < |Q.Contents(s.q)|
      ensures FrameBehind(s, Q.Contents(s.q)[k]) == s.accepted[Taken(s) + k]
      ensures Q.Contents(s.q)[k].dataBufferLen == |s.accepted[Taken(s) + k]|
    {
      QueuedNode(s, k);
      assert Holds(s.bufs[s.sent[Taken(s) + k]], s.accepted[Taken(s) + k]);
    }
  }

  lemma PendingFrame(s: Channel)
    requires Inv(s) && RxPending(s)
    ensures s.q.pointer.Some? && 0 < Taken(s) <= |s.accepted|
    ensures FrameBehind(s, s.q.nodes[s.q.pointer.value]) == s.accepted[Taken(s) - 1]
  {
    PointerNamesBuffer(s);
    assert Holds(s.bufs[s.sent[Taken(s) - 1]], s.accepted[Taken(s) - 1]);
  }

  lemma SplitAround<T>(xs: seq<T>, n: nat)
    requires 0 < n <= |xs|
    ensures xs == xs[..n - 1] + ([xs[n - 1]] + xs[n..])
  {
  }

  lemma DeliveredSoFar(s: Channel)
    requires Inv(s)
    ensures Taken(s) <= |s.accepted| && (RxPending(s) ==> Taken(s) > 0)
    ensures s.delivered == s.accepted[..if RxPending(s) then Taken(s) - 1 else Taken(s)]
  {
  }

  lemma PartsJoin(s: Channel, n: nat)
    requires Shape(s) && n <= |s.accepted|
    requires FramesBehind(s, Q.Contents(s.q)) == s.accepted[n..]
    requires RxPending(s) ==>
               && n > 0
               && s.q.pointer.Some?
               && FrameBehind(s, s.q.nodes[s.q.pointer.value]) == s.accepted[n - 1]
    ensures s.accepted == s.accepted[..if RxPending(s) then n - 1 else n] + InFlight(s)
  {
    if RxPending(s) {
      SplitAround(s.accepted, n);
    }
  }

  lemma InFlightIsRest(s: Channel)
    requires Inv(s)
    ensures s.accepted == s.delivered + InFlight(s) && LengthsMatch(s)
  {
    DeliveredSoFar(s);
    QueuedFrames(s);
    if RxPending(s) {
      PendingFrame(s);
    }
    PartsJoin(s, Taken(s));
  }

  /** A list of nodes naming pairwise distinct buffers names `b` once or never. */
  lemma {:induction false} CountDistinct(c: Config, nodes: seq<Q.Node>, bufs: seq<nat>, b: nat)
    requires |nodes| == |bufs|
    requires forall k :: 0 <= k < |nodes| ==> Names(c, nodes[k]) == Some(bufs[k])
    requires forall i, j :: 0 <= i < j < |bufs| ==> bufs[i] != bufs[j]
    ensures CountNaming(c, nodes, b) == if b in bufs then 1 else 0
  {
    if nodes != [] {
      CountDistinct(c, nodes[1..], bufs[1..], b);
      assert bufs == [bufs[0]] + bufs[1..];
    }
  }

  lemma QueuedCount(s: Channel, b: nat)
    requires Inv(s)
    ensures CountNaming(s.cfg, Q.Contents(s.q), b) == if b in s.sent[Taken(s)..] then 1 else 0
  {
    var queued := s.sent[Taken(s)..];
    QueuedLength(s);
    forall k | 0 <= k < |queued|
      ensures Names(s.cfg, Q.Contents(s.q)[k]) == Some(queued[k])
    {
      QueuedNode(s, k);
    }
    CountDistinct(s.cfg, Q.Contents(s.q), queued, b);
  }

  lemma RxHeldBuffer(s: Channel)
    requires Inv(s)
    ensures RxHolds(s) ==> 0 < Taken(s) <= |s.sent|
    ensures RxHeld(s) == if RxHolds(s) then Some(s.sent[Taken(s) - 1]) else None
  {
    if RxHolds(s) {
      PointerNamesBuffer(s);
    }
  }

  lemma QueuedCarries(s: Channel, b: nat)
    requires Taken(s) <= |s.sent|
    ensures b in s.sent[Taken(s)..] <==> exists i :: Taken(s) <= i && Carries(s, i, b)
  {
    var queued := s.sent[Taken(s)..];
    if b in queued {
      var k :| 0 <= k < |queued| && queued[k] == b;
      assert Carries(s, Taken(s) + k, b);
    }
    if i :| Taken(s) <= i && Carries(s, i, b) {
      assert queued[i - Taken(s)] == b;
    }
  }

  lemma PlacesCounted(s: Channel, b: nat)
    requires Inv(s) && b < s.cfg.poolSize
    ensures Places(s, b) == if s.pool.used[b] then 1 else 0
  {
    QueuedCount(s, b);
    RxHeldBuffer(s);
    QueuedCarries(s, b);
    if RxHeld(s) == Some(b) {
      assert Carries(s, Taken(s) - 1, b);
    }
    if i :| Carries(s, i, b) {
      assert Taken(s) <= i || RxHeld(s) == Some(b);
    }
  }

  // ----- pigeonhole -----

  /** Pairwise distinct numbers below `n` are at most `n`. */
  lemma {:induction false} Pigeonhole(xs: seq<nat>, n: nat)
    requires forall i :: 0 <= i < |xs| ==> xs[i] < n
    requires forall i, j :: 0 <= i < j < |xs| ==> xs[i] != xs[j]
    ensures |xs| <= n
  {
    if xs != [] {
      assert xs[0] < n;
      if n - 1 in xs {
        var k :| 0 <= k < |xs| && xs[k] == n - 1;
        Pigeonhole(xs[..k] + xs[k + 1..], n - 1);
      } else {
        forall i | 0 <= i < |xs| ensures xs[i] < n - 1 { assert xs[i] in xs; }
        Pigeonhole(xs, n - 1);
      }
    }
  }

  /** With the transmitter holding a buffer, at least one buffer of the pool is not queued. */
  lemma RoomForOneMore(s: Channel)
    requires Inv(s) && TxHeld(s).Some?
    ensures |Q.Contents(s.q)| < s.cfg.poolSize
  {
    QueuedLength(s);
    var live := s.sent[Taken(s)..] + [TxHeld(s).value];
    assert forall i :: 0 <= i < |live| ==> live[i] < s.cfg.poolSize;
    Pigeonhole(live, s.cfg.poolSize);
  }

  // ----- main results -----

  /** End to end, in every run: the frames accepted are the frames delivered, byte for byte
      and in order, followed by the frames lying in the buffers on the way. All copies stay
      inside the payload and no pointer of the receiver is wild. */
  lemma DeliveredInOrder(c: Config, m: Memory, steps: seq<Step>)
    requires ValidConfig(c) && ValidMemory(c, m)
    ensures var s := Run(c, m, steps);
            && s.delivered <= s.accepted
            && s.accepted == s.delivered + InFlight(s)
            && LengthsMatch(s)
            && (s.tx.TxFill? ==> s.tx.copied <= |s.tx.frame| <= ETH_FRAME_SIZE)
            && (s.rx.RxCopy? ==> |s.rx.data| <= s.rx.len <= ETH_FRAME_SIZE)
            && !s.rx.RxFault?
  {
    RunKeeps(c, m, steps);
    InFlightIsRest(Run(c, m, steps));
  }

  /** In every run each buffer is in use exactly when it is in one place: the transmitter's
      hands, one node of the queue, or the receiver's hands; and never in two. */
  lemma OneOwnerPerBuffer(c: Config, m: Memory, steps: seq<Step>, b: nat)
    requires ValidConfig(c) && ValidMemory(c, m) && b < c.poolSize
    ensures var s := Run(c, m, steps);
            Places(s, b) == if s.pool.used[b] then 1 else 0
  {
    RunKeeps(c, m, steps);
    PlacesCounted(Run(c, m, steps), b);
  }

  /** The transmitter has marked a buffer and not yet counted the get. */
  predicate Uncharged(s: Channel) { s.tx.TxTake? && s.tx.stores > 0 }

  /** Gets, with the one not yet counted, are frees plus buffers in use plus the free being charged. */
  ghost predicate StatsBalance(s: Channel) {
    s.pool.gets + (if Uncharged(s) then 1 else 0)
    == s.pool.frees + P.CountUsed(s.pool.used) + (if s.rx.RxCharge? then 1 else 0)
  }

  lemma TakeStats(s: Channel)
    requires Shape(s) && StatsBalance(s) && s.tx.TxTake? && (TxFound(s).Some? ==> !s.pool.used[s.tx.buf])
    ensures StatsBalance(TakeStep(s))
  {
    P.CountUpdate(s.pool.used, s.tx.buf, true);
  }

  lemma ClearStats(s: Channel, b: nat)
    requires Shape(s) && StatsBalance(s) && s.rx.RxClear?
    requires Deref(s.cfg, s.rx.ptr) == Some(b) && s.pool.used[b]
    ensures StatsBalance(ClearUsed(s))
  {
    P.CountUpdate(s.pool.used, b, false);
  }

  lemma DropStats(s: Channel, b: nat)
    requires Shape(s) && StatsBalance(s) && s.rx.RxFree?
    requires Deref(s.cfg, s.rx.ptr) == Some(b) && s.pool.ref[b] == 1
    ensures StatsBalance(DropRef(s))
  {
  }

  /** While the receiver frees a buffer it is in use, with one reference before the drop. */
  lemma FreeingBuffer(s: Channel)
    requires Rest(s) && (s.rx.RxFree? || s.rx.RxClear?)
    ensures 0 < Taken(s) <= |s.sent| && s.sent[Taken(s) - 1] < s.cfg.poolSize
    ensures var b := s.sent[Taken(s) - 1];
            && Deref(s.cfg, s.rx.ptr) == Some(b) && s.pool.used[b]
            && (s.rx.RxFree? ==> s.pool.ref[b] == 1)
  {
    assert Carries(s, Taken(s) - 1, s.sent[Taken(s) - 1]);
  }

  lemma OtherStats(s: Channel, step: Step)
    requires Shape(s) && StatsBalance(s)
    requires !step.TxTakeStep? && !step.RxClearUsed? && !step.RxDropRef?
    ensures StatsBalance(Apply(s, step))
  {
  }

  lemma StatsStep(s: Channel, step: Step)
    requires Inv(s) && StatsBalance(s)
    ensures StatsBalance(Apply(s, step))
  {
    match step
    case TxTakeStep => if s.tx.TxTake? { TakeStats(s); }
    case RxClearUsed =>
      if s.rx.RxClear? {
        FreeingBuffer(s);
        ClearStats(s, s.sent[Taken(s) - 1]);
      }
    case RxDropRef =>
      if s.rx.RxFree? {
        FreeingBuffer(s);
        DropStats(s, s.sent[Taken(s) - 1]);
      }
    case _ => OtherStats(s, step);
  }

  /** In every run the transmitter's pool statistics account for every buffer: gets minus frees
      is the number in use, but for a get or a free that is just being charged. */
  lemma {:induction false} PoolStatistics(c: Config, m: Memory, steps: seq<Step>)
    requires ValidConfig(c) && ValidMemory(c, m)
    ensures StatsBalance(Run(c, m, steps))
  {
    if steps == [] {
      P.CountNone(c.poolSize);
    } else {
      var init := steps[..|steps| - 1];
      RunKeeps(c, m, init);
      PoolStatistics(c, m, init);
      StatsStep(Run(c, m, init), steps[|steps| - 1]);
    }
  }

  predicate QueueFullFailure(s: Channel) { s.tx.TxFailed? && s.tx.why == QueueFull }

  /** A transmitter about to enqueue finds room, if the pool is small enough. */
  lemma NotFullAtEnqueue(s: Channel)
    requires Inv(s) && s.tx.TxNode? && s.cfg.poolSize <= s.cfg.queueSize - 1
    ensures !Q.Full(s.q)
  {
    RoomForOneMore(s);
    Q.IndexTests(s.q);
  }

  lemma RefusalNeedsFullRing(s: Channel, step: Step)
    requires Shape(s) && !QueueFullFailure(s) && (s.tx.TxNode? ==> !Q.Full(s.q))
    ensures !QueueFullFailure(Apply(s, step))
  {
  }

  /** With at most maxSize - 1 buffers in the pool the enqueue is never refused. */
  lemma {:induction false} EnqueueNeverRefused(c: Config, m: Memory, steps: seq<Step>)
    requires ValidConfig(c) && ValidMemory(c, m) && c.poolSize <= c.queueSize - 1
    ensures !QueueFullFailure(Run(c, m, steps))
  {
    if steps != [] {
      var init := steps[..|steps| - 1];
      EnqueueNeverRefused(c, m, init);
      RunKeeps(c, m, init);
      var s := Run(c, m, init);
      if s.tx.TxNode? {
        NotFullAtEnqueue(s);
      }
      RefusalNeedsFullRing(s, steps[|steps| - 1]);
    }
  }

  // ----- the search for a buffer, undisturbed -----

  function ScanLeft(s: Channel): int
    requires s.tx.TxScan?
  {
    if s.tx.wrapped then s.pool.lastAlloc - s.tx.index
    else s.cfg.poolSize - s.tx.index + s.pool.lastAlloc + 1
  }

  /** The probes of one search with no other step between them. */
  function ScanQuietly(s: Channel): Channel
    requires Shape(s) && s.tx.TxScan?
    decreases ScanLeft(s)
  {
    var r := Scan(s);
    if r.tx.TxScan? && ScanLeft(r) < ScanLeft(s) && 0 <= ScanLeft(s) then ScanQuietly(r) else r
  }

  /** Everything probed so far was in use. */
  ghost predicate ProbedUsed(s: Channel)
    requires Shape(s) && s.tx.TxScan?
  {
    var used, start, i := s.pool.used, s.pool.lastAlloc, s.tx.index;
    if s.tx.wrapped then
      && (forall j :: start <= j < |used| ==> used[j])
      && (forall j :: 0 <= j < i ==> used[j]) && i <= start
    else start <= i && forall j :: start <= j < i ==> used[j]
  }

  /** The search from `s` ended in `r` with the cyclically first free buffer found, or, exactly when
      every buffer is in use, with the frame given up. */
  ghost predicate Picked(s: Channel, r: Channel)
    requires Shape(s)
  {
    if forall b :: 0 <= b < s.cfg.poolSize ==> s.pool.used[b]
    then r.tx.TxIdle? && r.pool == s.pool.(getErrs := s.pool.getErrs + 1)
    else
      && s.tx.TxScan? && r.tx.TxTake? && r.tx.frame == s.tx.frame && r.tx.stores == 0
      && P.FirstFree(s.pool.used, s.pool.lastAlloc, r.tx.buf)
      && r.pool == s.pool
  }

  lemma ProbeKeeps(s: Channel)
    requires Shape(s) && s.tx.TxScan? && ProbedUsed(s)
    ensures var r := Scan(s);
            if r.tx.TxScan? then
              && ProbedUsed(r) && 0 <= ScanLeft(s) && ScanLeft(r) < ScanLeft(s)
              && r.tx.frame == s.tx.frame && r.pool == s.pool
            else Picked(s, r)
  {
  }

  lemma {:induction false} QuietScanFinds(s: Channel)
    requires Shape(s) && s.tx.TxScan? && ProbedUsed(s)
    ensures Shape(ScanQuietly(s)) && Picked(s, ScanQuietly(s))
    decreases ScanLeft(s)
  {
    ProbeKeeps(s);
    var r := Scan(s);
    if r.tx.TxScan? {
      QuietScanFinds(r);
    }
  }

  /** The four stores that take a buffer, with no other step between them. */
  function TakeQuietly(s: Channel): Channel
    requires Shape(s) && s.tx.TxTake? && s.tx.stores == 0
  {
    TakeStep(TakeStep(TakeStep(TakeStep(s))))
  }

  lemma QuietTake(s: Channel)
    requires Shape(s) && s.tx.TxTake? && s.tx.stores == 0
    ensures TakeQuietly(s) == s.(
              pool := P.Take(s.pool, s.tx.buf),
              tx := if |s.tx.frame| > ETH_FRAME_SIZE then TxFailed(s.tx.frame, s.tx.buf, Oversize)
                    else TxFill(s.tx.frame, s.tx.buf, 0))
  {
    var s1 := TakeStep(s);
    var s2 := TakeStep(s1);
    assert s2.tx == TxTake(s.tx.frame, s.tx.buf, 2);
    var s3 := TakeStep(s2);
    assert TakeStep(s3).pool == P.Take(s.pool, s.tx.buf);
  }

  /** An undisturbed search and its stores together take the first free buffer in cyclic order, and
      give the frame up exactly when every buffer is in use; a frame that is too long then stops the
      transmitter. */
  lemma QuietScanPicks(s: Channel)
    requires Shape(s) && s.tx.TxScan? && ProbedUsed(s)
    ensures var r := ScanQuietly(s);
            if forall b :: 0 <= b < s.cfg.poolSize ==> s.pool.used[b]
            then r.tx.TxIdle? && r.pool == s.pool.(getErrs := s.pool.getErrs + 1)
            else
              && Shape(r) && r.tx.TxTake? && r.tx.stores == 0
              && var b, t := r.tx.buf, TakeQuietly(r);
                 && P.FirstFree(s.pool.used, s.pool.lastAlloc, b)
                 && t.pool == P.Take(s.pool, b)
                 && t.tx == if |s.tx.frame| > ETH_FRAME_SIZE then TxFailed(s.tx.frame, b, Oversize)
                            else TxFill(s.tx.frame, b, 0)
  {
    QuietScanFinds(s);
    var r := ScanQuietly(s);
    if r.tx.TxTake? {
      QuietTake(r);
    }
  }

  // ----- a larger pool can fill the queue -----

  ghost function Act(s: Channel, step: Step): Channel {
    if Shape(s) then Apply(s, step) else s
  }

  /** The state after `steps`, from `s`. */
  ghost function ApplyAll(s: Channel, steps: seq<Step>): Channel { After(Act, s, steps) }

  ghost predicate Reaches(s: Channel, r: Channel) { Reachable(Act, s, r) }

  /** `k` one-byte frames are queued, nothing was received, both tasks are idle. */
  ghost predicate Ready(s: Channel, k: nat) {
    && Shape(s)
    && s.tx.TxIdle?
    && |s.q.enqueued| == k && |s.q.dequeued| == 0
    && s.pool.lastAlloc == (if k == 0 then 0 else k - 1)
    && forall b :: 0 <= b < s.cfg.poolSize ==> (s.pool.used[b] <==> b < k)
  }

  lemma ReachesTake(s: Channel, r: Channel)
    requires Shape(s) && Reaches(s, r) && Shape(r) && r.tx.TxTake? && r.tx.stores == 0
    requires |r.tx.frame| <= ETH_FRAME_SIZE
    ensures Reaches(s, r.(pool := P.Take(r.pool, r.tx.buf), tx := TxFill(r.tx.frame, r.tx.buf, 0)))
  {
    QuietTake(r);
    var r1 := TakeStep(r);
    var r2 := TakeStep(r1);
    var r3 := TakeStep(r2);
    ReachableStep(Act, s, r, TxTakeStep);
    ReachableStep(Act, s, r1, TxTakeStep);
    ReachableStep(Act, s, r2, TxTakeStep);
    ReachableStep(Act, s, r3, TxTakeStep);
  }

  /** The pool search of a ready transmitter ends at buffer `k`. */
  lemma ReachBuffer(s: Channel, k: nat)
    requires Ready(s, k) && k < s.cfg.poolSize
    ensures Reaches(s, s.(pool := P.Take(s.pool, k), tx := TxFill([0], k, 0)))
  {
    ReachableSelf(Act, s);
    var s1 := s.(tx := TxScan([0], s.pool.lastAlloc, false));
    assert Apply(s, TxRead([0])) == s1;
    ReachableStep(Act, s, s, TxRead([0]));
    var s2 := s.(tx := TxScan([0], k, false));
    if k > 0 {
      assert Apply(s1, TxScanStep) == s2;
      ReachableStep(Act, s, s1, TxScanStep);
    }
    var s3 := s.(tx := TxTake([0], k, 0));
    assert Apply(s2, TxScanStep) == s3;
    ReachableStep(Act, s, s2, TxScanStep);
    ReachesTake(s, s3);
  }

  /** A one-byte frame is copied in and the transmitter stands before the enqueue. */
  lemma ReachNode(s: Channel, k: nat) returns (r: Channel)
    requires Shape(s) && s.tx == TxFill([0], k, 0)
    ensures Reaches(s, r) && Shape(r) && r.tx == TxNode([0], k) && r.q == s.q && r.pool == s.pool
            && r.cfg == s.cfg
  {
    ReachableSelf(Act, s);
    ReachableStep(Act, s, s, TxCopyByte);
    var s1 := Apply(s, TxCopyByte);
    ReachableStep(Act, s, s1, TxFinishBuf);
    r := Apply(s1, TxFinishBuf);
  }

  /** One step inside an enqueue that has found room. */
  lemma EnqStep(s: Channel)
    requires Shape(s) && s.tx.TxEnq? && (s.q.producer.PFill? || s.q.producer.PStore?)
    ensures var r := Apply(s, TxEnqStep);
            && r.pool == s.pool && r.q.dequeued == s.q.dequeued
            && (s.q.producer.PFill? && s.q.producer.fields < 3 ==>
                  r.tx.TxEnq? && r.q.producer.PFill? && r.q.producer.fields == s.q.producer.fields + 1
                  && r.q.enqueued == s.q.enqueued)
            && (s.q.producer.PFill? && s.q.producer.fields == 3 ==>
                  r.tx.TxEnq? && r.q.producer.PStore? && r.q.enqueued == s.q.enqueued)
            && (s.q.producer.PStore? ==>
                  r.tx.TxIdle? && |r.q.enqueued| == |s.q.enqueued| + 1)
  {
  }

  /** The enqueue goes through while the ring is not full. */
  lemma ReachIdle(s: Channel, k: nat) returns (r: Channel)
    requires Shape(s) && s.tx == TxNode([0], k) && s.q.producer.PIdle? && !Q.Full(s.q)
    ensures Reaches(s, r) && Shape(r) && r.cfg == s.cfg
    ensures r.tx.TxIdle? && r.pool == s.pool
    ensures |r.q.enqueued| == |s.q.enqueued| + 1 && r.q.dequeued == s.q.dequeued
  {
    ReachableSelf(Act, s);
    ReachableStep(Act, s, s, TxBeginEnq);
    r := Apply(s, TxBeginEnq);
    var i := 0;
    while i < 5
      invariant 0 <= i <= 5 && Shape(r) && Reaches(s, r) && r.cfg == s.cfg
      invariant r.pool == s.pool && r.q.dequeued == s.q.dequeued
      invariant i < 5 ==> r.tx.TxEnq? && r.q.enqueued == s.q.enqueued
      invariant i <= 3 ==> r.q.producer.PFill? && r.q.producer.fields == i
      invariant i == 4 ==> r.q.producer.PStore?
      invariant i == 5 ==> r.tx.TxIdle? && |r.q.enqueued| == |s.q.enqueued| + 1
    {
      EnqStep(r);
      ReachableStep(Act, s, r, TxEnqStep);
      r := Apply(r, TxEnqStep);
      i := i + 1;
    }
  }

  /** From `k` queued frames the transmitter comes to enqueue one more. */
  lemma ReachEnqueue(s: Channel, k: nat) returns (r: Channel)
    requires Inv(s) && Ready(s, k) && k < s.cfg.poolSize
    ensures Reaches(s, r) && Shape(r) && r.tx == TxNode([0], k) && r.q == s.q
    ensures r.pool == P.Take(s.pool, k) && r.cfg == s.cfg
  {
    ReachBuffer(s, k);
    var filling := s.(pool := P.Take(s.pool, k), tx := TxFill([0], k, 0));
    r := ReachNode(filling, k);
    ReachableTrans(Act, s, filling, r);
  }

  /** The ring's full test on a state whose receiver took nothing. */
  lemma FullByCount(s: Channel, k: nat)
    requires Inv(s) && Ready(s, k)
    ensures Q.Full(s.q) <==> k == s.cfg.queueSize - 1
    ensures s.q.producer.PIdle?
  {
    Q.IndexTests(s.q);
  }

  lemma ReachesInv(s: Channel, r: Channel)
    requires Inv(s) && Reaches(s, r)
    ensures Inv(r)
  {
    forall t, step | Inv(t) ensures Inv(Act(t, step)) { StepKeeps(t, step); }
    ReachableKeeps(Act, Inv, s, r);
  }

  lemma OneMoreQueued(s: Channel, k: nat) returns (r: Channel)
    requires Inv(s) && Ready(s, k) && k < s.cfg.queueSize - 1 && k < s.cfg.poolSize
    ensures Reaches(s, r) && Ready(r, k + 1) && r.cfg == s.cfg
  {
    FullByCount(s, k);
    var node := ReachEnqueue(s, k);
    r := ReachIdle(node, k);
    ReachableTrans(Act, s, node, r);
  }

  lemma {:induction false} FillQueue(s: Channel, k: nat) returns (r: Channel)
    requires Inv(s) && Ready(s, 0) && s.cfg.queueSize <= s.cfg.poolSize && k < s.cfg.queueSize
    ensures Reaches(s, r) && Inv(r) && Ready(r, k) && r.cfg == s.cfg
  {
    if k == 0 {
      r := s;
      ReachableSelf(Act, s);
    } else {
      var before := FillQueue(s, k - 1);
      r := OneMoreQueued(before, k - 1);
      ReachesInv(before, r);
      ReachableTrans(Act, s, before, r);
    }
  }

  lemma {:induction false} RunIsApplyAll(c: Config, m: Memory, steps: seq<Step>)
    requires ValidConfig(c) && ValidMemory(c, m)
    ensures Shape(Start(c, m)) && Run(c, m, steps) == ApplyAll(Start(c, m), steps)
  {
    if steps != [] {
      RunIsApplyAll(c, m, steps[..|steps| - 1]);
    }
  }

  lemma RefusedWhenFull(s: Channel, k: nat) returns (r: Channel)
    requires Inv(s) && Ready(s, k) && k == s.cfg.queueSize - 1 && k < s.cfg.poolSize
    ensures Reaches(s, r) && QueueFullFailure(r)
  {
    FullByCount(s, k);
    var node := ReachEnqueue(s, k);
    ReachableStep(Act, s, node, TxBeginEnq);
    r := Apply(node, TxBeginEnq);
  }

  /** The transmitter's assertion on the enqueue fails in the run `steps`. */
  ghost predicate FailsIn(c: Config, m: Memory, steps: seq<Step>)
    requires ValidConfig(c) && ValidMemory(c, m)
  {
    QueueFullFailure(Run(c, m, steps))
  }

  lemma ReadyAtStart(c: Config, m: Memory)
    requires ValidConfig(c) && ValidMemory(c, m)
    ensures Inv(Start(c, m)) && Ready(Start(c, m), 0)
  {
    StartInv(c, m);
  }

  /** A larger pool has a run in which the transmitter's assertion fails. */
  lemma LargerPoolCanFail(c: Config, m: Memory) returns (steps: seq<Step>)
    requires ValidConfig(c) && ValidMemory(c, m) && c.poolSize > c.queueSize - 1
    ensures FailsIn(c, m, steps)
  {
    ReadyAtStart(c, m);
    var s := Start(c, m);
    var full := FillQueue(s, c.queueSize - 1);
    var failed := RefusedWhenFull(full, c.queueSize - 1);
    ReachableTrans(Act, s, full, failed);
    steps :| After(Act, s, steps) == failed;
    RunIsApplyAll(c, m, steps);
  }

  /** The enqueue assertion of the transmitter holds in every run exactly when the pool has
      at most maxSize - 1 buffers (1280 against 2047 with the constants of the source). */
  lemma EnqueueAssertionExactly(c: Config, m: Memory)
    requires ValidConfig(c) && ValidMemory(c, m)
    ensures (forall steps :: !FailsIn(c, m, steps)) <==> c.poolSize <= c.queueSize - 1
  {
    if c.poolSize <= c.queueSize - 1 {
      forall steps ensures !FailsIn(c, m, steps) { EnqueueNeverRefused(c, m, steps); }
    } else {
      var steps := LargerPoolCanFail(c, m);
    }
  }
}
