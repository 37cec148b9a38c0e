/** When the circular buffer is a first-in first-out queue of blocks. */
module ShmTheorems {
  import opened Common
  import opened RingIndex
  import opened ShmRing

  /** A data area of `n` blocks of `b` bytes at address `start`, inside the 32-bit space. */
  ghost predicate Layout(start: nat, n: nat, b: nat) {
    2 <= n && 1 <= b && start + n * b + b < U32
  }

  // ----- products of block numbers -----

  lemma {:induction false} MulMono(i: nat, j: nat, b: nat)
    requires i < j
    ensures i * b + b <= j * b
    decreases j
  {
    assert j * b == (j - 1) * b + b;
    if i < j - 1 {
      MulMono(i, j - 1, b);
    }
  }

  lemma MulDistinct(i: nat, j: nat, b: nat)
    requires b > 0
    ensures i * b == j * b <==> i == j
    ensures i * b < j * b <==> i < j
  {
    if i < j { MulMono(i, j, b); }
    if j < i { MulMono(j, i, b); }
  }

  /** Multiplying by a block size keeps order, in both directions. */
  lemma MulOrder(x: int, y: int, b: nat)
    requires b > 0
    ensures x <= y <==> x * b <= y * b
  {
    if x < y {
      MulMono(0, y - x, b);
      assert (y - x) * b == y * b - x * b;
    } else if y < x {
      MulMono(0, x - y, b);
      assert (x - y) * b == x * b - y * b;
    }
  }

  // ----- the wrapped availability expression -----

  /** Twice the start address, modulo 2^32, as a number in (0, 2^32]. */
  function Twice(start: nat): (t: nat)
    ensures 0 < t <= U32
  {
    if (2 * start) % U32 == 0 then U32 else (2 * start) % U32
  }

  /** The condition on the placement under which the reader's expression serves. */
  predicate PlacementOk(start: nat, n: nat, b: nat)
    requires n >= 2
  {
    (n - 1) * b < Twice(start) <= U32 - (n - 2) * b
  }

  /** In the state with reader at block `i` and writer at block `j < i` a block can be read. */
  predicate ServesAt(start: nat, n: nat, b: nat, i: nat, j: nat) {
    Avail(start + i * b, start + j * b, n * b) >= b
  }

  /** The expression depends on the state only through i + j. */
  lemma WrappedAvail(start: nat, n: nat, b: nat, i: nat, j: nat)
    requires Layout(start, n, b) && j < i < n
    ensures Avail(start + i * b, start + j * b, n * b) == ((n - i - j) * b - Twice(start)) % U32
  {
    MulMono(j, i, b);
    var k := (n - i - j) * b;
    assert k == n * b - i * b - j * b;
    assert n * b - (start + i * b) - (start + j * b) == k - 2 * start;
    ModShift(k - 2 * start, k - Twice(start), (2 * start - Twice(start)) / U32);
  }

  /** Numbers that differ by a multiple of 2^32 are equal modulo 2^32. */
  lemma ModShift(x: int, y: int, q: int)
    requires y - x == q * U32
    ensures x % U32 == y % U32
  {
  }

  lemma ServesWhenPlaced(start: nat, n: nat, b: nat, i: nat, j: nat)
    requires Layout(start, n, b) && PlacementOk(start, n, b) && j < i < n
    ensures ServesAt(start, n, b, i, j)
  {
    WrappedAvail(start, n, b, i, j);
    var k := n - i - j;
    MulOrder(k, n - 1, b);
    MulOrder(3 - n, k, b);
    assert (3 - n) * b == b - (n - 2) * b;
    NegativeModulo(k * b - Twice(start));
  }

  lemma NegativeModulo(x: int)
    requires 0 <= x + U32 < U32
    ensures x % U32 == x + U32
  {
  }

  /** The states with a given i + j. */
  lemma StateWithSum(n: nat, s: nat) returns (i: nat, j: nat)
    requires n >= 2 && 1 <= s <= 2 * n - 3
    ensures j < i < n && i + j == s
  {
    if s <= n - 1 {
      i, j := s, 0;
    } else {
      i, j := n - 1, s - (n - 1);
    }
  }

  /** Rounding `t` up to a multiple of `b`. */
  lemma RoundUp(t: int, b: nat) returns (k: int)
    requires b > 0
    ensures t <= k * b < t + b
  {
    k := (t + b - 1) / b;
    assert k * b == (t + b - 1) - (t + b - 1) % b;
  }

  lemma RefusesWhenMisplaced(start: nat, n: nat, b: nat) returns (i: nat, j: nat)
    requires Layout(start, n, b) && !PlacementOk(start, n, b)
    ensures j < i < n && !ServesAt(start, n, b, i, j)
  {
    var t := if Twice(start) <= (n - 1) * b then Twice(start) else Twice(start) - U32;
    var k := RoundUp(t, b);
    BoundK(n, b, t, k);
    i, j := StateWithSum(n, n - k);
    WrappedAvail(start, n, b, i, j);
    assert (n - i - j) * b == k * b;
    SmallModulo(k * b, Twice(start), t);
  }

  lemma SmallModulo(x: int, full: nat, t: int)
    requires (t == full || t == full - U32) && 0 <= x - t < U32
    ensures (x - full) % U32 == x - t
  {
  }

  lemma BoundK(n: nat, b: nat, t: int, k: int)
    requires n >= 2 && b > 0 && t <= k * b < t + b
    requires 0 < t <= (n - 1) * b || -((n - 2) * b) < t <= 0
    ensures 3 - n <= k <= n - 1
  {
    assert n * b == (n - 1) * b + b;
    assert (2 - n) * b == -((n - 2) * b);
    assert (n - 1) * b == (n - 2) * b + b;
    MulOrder(0, n - 2, b);
    MulOrder(n, k, b);
    MulOrder(k, 2 - n, b);
  }

  /** A block can be read in every wrapped state, that is whenever the writer is behind the
      reader, exactly when the placement satisfies the condition. */
  lemma WrappedReadsExactly(start: nat, n: nat, b: nat)
    requires Layout(start, n, b)
    ensures (forall i, j :: 0 <= j < i < n ==> ServesAt(start, n, b, i, j)) <==> PlacementOk(start, n, b)
  {
    if PlacementOk(start, n, b) {
      forall i, j | 0 <= j < i < n ensures ServesAt(start, n, b, i, j) {
        ServesWhenPlaced(start, n, b, i, j);
      }
    } else {
      var i, j := RefusesWhenMisplaced(start, n, b);
    }
  }

  /** The three rings the firmware sets up, in blocks of 192 bytes, satisfy it; a ring at
      address 0x1000 does not. */
  lemma FirmwarePlacements()
    ensures DataSize(0x20000, 192) == 682 * 192
    ensures DataSize(0x20000, 768) == 680 * 192
    ensures DataSize(2 * 0x20000, 192) == 1364 * 192
    ensures PlacementOk(0xA300_0000 + OVERHEAD, 682, 192)
    ensures PlacementOk(0xA300_0000 + 0x20000 + OVERHEAD, 680, 192)
    ensures PlacementOk(0xA300_0000 + 2 * 0x20000 + OVERHEAD, 1364, 192)
    ensures !PlacementOk(0x1000 + OVERHEAD, 682, 192)
  {
  }

  // ----- runs -----

  type Block = seq<Byte>

  /** The ring with the history of the run: blocks written and blocks read. */
  datatype Sys = Sys(ring: Ring, written: seq<Block>, got: seq<Block>, refused: nat)

  datatype Op = W(block: Block) | R

  /** Where the ring lies: `n` blocks of `b` bytes at `start`. */
  datatype Place = Place(start: nat, n: nat, b: nat)

  ghost predicate Good(p: Place) {
    Layout(p.start, p.n, p.b) && p.start >= OVERHEAD
  }

  /** Reads and writes stay this side of the 2^32 boundary, so the operations are defined. */
  ghost predicate Fits(p: Place, s: Sys) {
    Valid(s.ring) && s.ring.endAddr + p.b < U32
  }

  function Apply(p: Place, s: Sys, op: Op): (r: Sys)
    requires Fits(p, s)
    ensures Fits(p, r)
  {
    match op
    case W(block) =>
      if |block| != p.b then s
      else s.(ring := Write(s.ring, block), written := s.written + [block])
    case R =>
      var (ring, out) := Read(s.ring, p.b);
      if out.Data? then s.(ring := ring, got := s.got + [out.bytes])
      else s.(ring := ring, refused := s.refused + 1)
  }

  function Start(p: Place): Sys
    requires Good(p)
  {
    Sys(Fresh(p.start - OVERHEAD, p.n * p.b), [], [], 0)
  }

  function Run(p: Place, ops: seq<Op>): (s: Sys)
    requires Good(p)
    ensures Fits(p, s)
  {
    if ops == [] then Start(p) else Apply(p, Run(p, ops[..|ops| - 1]), ops[|ops| - 1])
  }

  /** A write of one block; other sizes change nothing here. */
  predicate Writes(p: Place, op: Op) { op.W? && |op.block| == p.b }

  /** The writer never gets more than n - 1 blocks ahead. */
  ghost predicate Paced(p: Place, ops: seq<Op>)
    requires Good(p)
  {
    forall k :: 0 <= k < |ops| && Writes(p, ops[k]) ==>
      |Run(p, ops[..k]).written| + 1 < |Run(p, ops[..k]).got| + p.n
  }

  // ----- blocks inside the data area -----

  lemma BlockFits(p: Place, i: nat)
    requires i < p.n
    ensures i * p.b + p.b <= p.n * p.b
  {
    MulMono(i, p.n, p.b);
  }

  /** The `len` bytes at offset `at`. */
  function Piece(data: seq<Byte>, at: nat, len: nat): Block {
    if at + len <= |data| then data[at..at + len] else []
  }

  function BlockAt(p: Place, data: seq<Byte>, i: nat): Block { Piece(data, i * p.b, p.b) }

  /** A stored piece reads back, and a piece beside it is unchanged. */
  lemma PutPiece(data: seq<Byte>, off: nat, block: Block, at: nat)
    requires off + |block| <= |data| && at + |block| <= |data|
    requires at == off || at + |block| <= off || off + |block| <= at
    ensures Piece(Put(data, off, block), at, |block|)
         == if at == off then block else Piece(data, at, |block|)
  {
    var put, len := Put(data, off, block), |block|;
    if at == off {
      assert put[at..at + len] == block;
    } else {
      assert put[at..at + len] == data[at..at + len];
    }
  }

  /** Two blocks are the same or do not overlap. */
  lemma BlocksApart(p: Place, i: nat, j: nat)
    requires i < p.n && j < p.n && p.b > 0
    ensures i * p.b + p.b <= p.n * p.b && j * p.b + p.b <= p.n * p.b
    ensures i * p.b == j * p.b <==> i == j
    ensures i != j ==> i * p.b + p.b <= j * p.b || j * p.b + p.b <= i * p.b
  {
    BlockFits(p, j);
    BlockFits(p, i);
    MulDistinct(i, j, p.b);
    if i < j { MulMono(i, j, p.b); }
    if j < i { MulMono(j, i, p.b); }
  }

  lemma PutBlock(p: Place, data: seq<Byte>, j: nat, block: Block, i: nat)
    requires |data| == p.n * p.b && i < p.n && j < p.n && |block| == p.b > 0
    ensures j * p.b + p.b <= |data|
    ensures BlockAt(p, Put(data, j * p.b, block), i) == if i == j then block else BlockAt(p, data, i)
  {
    BlocksApart(p, i, j);
    PutPiece(data, j * p.b, block, i * p.b);
  }

  /** After the last block the address wraps to the start. */
  lemma NextAddr(p: Place, i: nat)
    requires i < p.n && p.b > 0
    ensures i * p.b + p.b == p.n * p.b <==> i + 1 == p.n
    ensures (if i * p.b + p.b == p.n * p.b then 0 else i * p.b + p.b) == Next(i, p.n) * p.b
  {
    assert (i + 1) * p.b == i * p.b + p.b;
    MulDistinct(i + 1, p.n, p.b);
  }

  // ----- invariant -----

  ghost predicate Control(p: Place, g: Ring) {
    && g.header == MAGIC
    && g.startAddr == p.start
    && g.endAddr == p.start + p.n * p.b
    && g.totalBufSize == |g.data| == p.n * p.b
    && g.writeErrorFull == 0 && g.readErrorEmpty == 0
  }

  ghost predicate Inv(p: Place, s: Sys) {
    && Good(p) && Fits(p, s)
    && Control(p, s.ring)
    && s.got <= s.written
    && |s.written| < |s.got| + p.n
    && s.ring.writeAddr == p.start + Slot(|s.written|, p.n) * p.b
    && s.ring.readAddr == p.start + Slot(|s.got|, p.n) * p.b
    && (forall k :: |s.got| <= k < |s.written| ==> BlockAt(p, s.ring.data, Slot(k, p.n)) == s.written[k])
  }

  lemma WriteKeeps(p: Place, s: Sys, block: Block)
    requires Inv(p, s) && |block| == p.b && |s.written| + 1 < |s.got| + p.n
    ensures Inv(p, Apply(p, s, W(block)))
  {
    var r := Apply(p, s, W(block));
    var j := Slot(|s.written|, p.n);
    NextAddr(p, j);
    BlockFits(p, j);
    assert Slot(|r.written|, p.n) == Next(j, p.n);
    forall k | |r.got| <= k < |r.written|
      ensures BlockAt(p, r.ring.data, Slot(k, p.n)) == r.written[k]
    {
      PutBlock(p, s.ring.data, j, block, Slot(k, p.n));
      if k < |s.written| {
        SlotDistinct(k, |s.written|, p.n);
      }
    }
  }

  /** The reader is ahead of the writer in address. */
  ghost predicate Wrapped(s: Sys) { s.ring.writeAddr < s.ring.readAddr }

  /** The availability test passes exactly when a block is outstanding, in a wrapped state
      provided the placement is right. */
  lemma AvailExactly(p: Place, s: Sys)
    requires Inv(p, s) && (Wrapped(s) ==> PlacementOk(p.start, p.n, p.b))
    ensures Avail(s.ring.readAddr, s.ring.writeAddr, s.ring.totalBufSize) >= p.b
       <==> |s.got| < |s.written|
  {
    var i, j := Slot(|s.got|, p.n), Slot(|s.written|, p.n);
    OccupiedIsDistance(|s.got|, |s.written|, p.n);
    MulDistinct(i, j, p.b);
    if j < i {
      ServesWhenPlaced(p.start, p.n, p.b, i, j);
    } else if i < j {
      MulMono(i, j, p.b);
    }
  }

  /** A read returns the next block if one is outstanding and nothing otherwise. */
  ghost predicate Honest(p: Place, s: Sys)
    requires Fits(p, s)
  {
    Read(s.ring, p.b).1 == if |s.got| < |s.written| then Data(s.written[|s.got|]) else NoData
  }

  lemma ReadHonest(p: Place, s: Sys)
    requires Inv(p, s) && (Wrapped(s) ==> PlacementOk(p.start, p.n, p.b))
    ensures Honest(p, s)
  {
    AvailExactly(p, s);
    BlockFits(p, Slot(|s.got|, p.n));
  }

  /** The read address a block further on. */
  lemma ReadAddrAdvances(p: Place, s: Sys)
    requires Inv(p, s)
    ensures var next := s.ring.readAddr + p.b;
            && next <= s.ring.endAddr
            && (if next == s.ring.endAddr then s.ring.startAddr else next) == p.start + Slot(|s.got| + 1, p.n) * p.b
  {
    var i := Slot(|s.got|, p.n);
    BlockFits(p, i);
    NextAddr(p, i);
    assert Slot(|s.got| + 1, p.n) == Next(i, p.n);
  }

  /** An empty ring has nothing to read. */
  lemma EmptyRefuses(p: Place, s: Sys)
    requires Inv(p, s) && |s.got| == |s.written|
    ensures Avail(s.ring.readAddr, s.ring.writeAddr, s.ring.totalBufSize) == 0
  {
  }

  /** The read took the oldest outstanding block and advanced the address by one block, or only
      counted an error. */
  ghost predicate Took(p: Place, s: Sys, ring: Ring, out: ReadResult)
    requires p.n > 0
  {
    if out.Data? then
      && |s.got| < |s.written| && out.bytes == s.written[|s.got|]
      && ring == s.ring.(readAddr := p.start + Slot(|s.got| + 1, p.n) * p.b)
    else ring == s.ring.(readErrCnt := s.ring.readErrCnt + 1)
  }

  lemma ReadTakes(p: Place, s: Sys)
    requires Inv(p, s)
    ensures Took(p, s, Read(s.ring, p.b).0, Read(s.ring, p.b).1)
  {
    ReadAddrAdvances(p, s);
    if |s.got| == |s.written| {
      EmptyRefuses(p, s);
    } else {
      assert BlockAt(p, s.ring.data, Slot(|s.got|, p.n)) == s.written[|s.got|];
      BlockFits(p, Slot(|s.got|, p.n));
    }
  }

  /** Even a read that is wrongly refused keeps the rest in order. */
  lemma ReadKeeps(p: Place, s: Sys)
    requires Inv(p, s)
    ensures Inv(p, Apply(p, s, R))
  {
    ReadTakes(p, s);
  }

  lemma PacedPrefix(p: Place, ops: seq<Op>, op: Op)
    requires Good(p)
    ensures Paced(p, ops + [op]) <==>
              Paced(p, ops) && (Writes(p, op) ==> |Run(p, ops).written| + 1 < |Run(p, ops).got| + p.n)
  {
    var more := ops + [op];
    assert more[..|ops|] == ops;
    forall k | 0 <= k < |ops|
      ensures more[..k] == ops[..k] && more[k] == ops[k]
    {
    }
    if Paced(p, more) {
      assert more[|ops|] == op;
      forall k | 0 <= k < |ops| && Writes(p, ops[k])
        ensures |Run(p, ops[..k]).written| + 1 < |Run(p, ops[..k]).got| + p.n
      {
        assert Writes(p, more[k]) && more[..k] == ops[..k];
      }
    }
  }

  lemma RunSnoc(p: Place, ops: seq<Op>, op: Op)
    requires Good(p)
    ensures Run(p, ops + [op]) == Apply(p, Run(p, ops), op)
  {
    assert (ops + [op])[..|ops|] == ops;
  }

  lemma {:induction false} RunKeeps(p: Place, ops: seq<Op>)
    requires Good(p) && Paced(p, ops)
    ensures Inv(p, Run(p, ops))
  {
    if ops != [] {
      var init, op := ops[..|ops| - 1], ops[|ops| - 1];
      assert ops == init + [op];
      PacedPrefix(p, init, op);
      RunKeeps(p, init);
      match op
      case W(block) => if |block| == p.b { WriteKeeps(p, Run(p, init), block); }
      case R => ReadKeeps(p, Run(p, init));
    }
  }

  /** For a well placed ring, in every run whose writer stays at most n - 1 blocks ahead: no write
      leaves the area or counts a full error, the blocks read are the blocks written, in order, and
      the next read returns the next block exactly when one is outstanding. */
  lemma BlocksInOrder(p: Place, ops: seq<Op>)
    requires Good(p) && PlacementOk(p.start, p.n, p.b) && Paced(p, ops)
    ensures var s := Run(p, ops);
            && s.got <= s.written
            && s.ring.writeErrorFull == 0 && s.ring.readErrorEmpty == 0
            && p.start <= s.ring.writeAddr && s.ring.writeAddr + p.b <= p.start + p.n * p.b
            && Honest(p, s)
  {
    RunKeeps(p, ops);
    ReadHonest(p, Run(p, ops));
    BlockFits(p, Slot(|Run(p, ops).written|, p.n));
  }

  // ----- a misplaced ring refuses a read -----

  /** `i` blocks written and read back one at a time, without wrapping. */
  lemma {:induction false} ReachPairs(p: Place, i: nat) returns (ops: seq<Op>)
    requires Good(p) && i < p.n
    ensures Paced(p, ops) && |Run(p, ops).written| == |Run(p, ops).got| == i
  {
    if i == 0 {
      ops := [];
    } else {
      var before := ReachPairs(p, i - 1);
      ops := ReachWrites(p, before, 1);
      PacedPrefix(p, ops, R);
      RunKeeps(p, ops);
      UnwrappedSlots(p, Run(p, ops));
      ReadHonest(p, Run(p, ops));
      RunSnoc(p, ops, R);
      ops := ops + [R];
    }
  }

  /** Before the first wrap the writer is not behind the reader. */
  lemma UnwrappedSlots(p: Place, s: Sys)
    requires Inv(p, s) && |s.written| < p.n
    ensures !Wrapped(s)
  {
    SlotAdd(0, |s.got|, p.n);
    SlotAdd(0, |s.written|, p.n);
    MulDistinct(|s.got|, |s.written|, p.b);
  }

  /** `m` more blocks written. */
  lemma {:induction false} ReachWrites(p: Place, ops: seq<Op>, m: nat) returns (more: seq<Op>)
    requires Good(p) && Paced(p, ops)
    requires |Run(p, ops).written| == |Run(p, ops).got| && m < p.n
    ensures Paced(p, more)
    ensures |Run(p, more).written| == |Run(p, ops).written| + m
    ensures Run(p, more).got == Run(p, ops).got
  {
    if m == 0 {
      more := ops;
    } else {
      more := ReachWrites(p, ops, m - 1);
      var w := W(seq(p.b, _ => 0));
      PacedPrefix(p, more, w);
      RunSnoc(p, more, w);
      more := more + [w];
    }
  }

  lemma WrappedSlots(i: nat, j: nat, n: nat)
    requires j < i < n
    ensures Slot(i, n) == i && Slot(n + j, n) == j
  {
    SlotAdd(0, i, n);
    SlotAdd(i, n - i + j, n);
    assert i + (n - i + j) == n + j;
  }

  /** The run to the wrapped state with reader at block `i` and writer at block `j`. */
  lemma ReachWrapped(p: Place, i: nat, j: nat) returns (ops: seq<Op>)
    requires Good(p) && j < i < p.n
    ensures Paced(p, ops) && Inv(p, Run(p, ops))
    ensures var s := Run(p, ops);
            && |s.got| < |s.written|
            && s.ring.readAddr == p.start + i * p.b && s.ring.writeAddr == p.start + j * p.b
  {
    var pairs := ReachPairs(p, i);
    ops := ReachWrites(p, pairs, p.n - i + j);
    RunKeeps(p, ops);
    WrappedSlots(i, j, p.n);
    assert |Run(p, ops).got| == i && |Run(p, ops).written| == p.n + j;
  }

  /** The state a run ends in, when the run keeps the writer's pace. */
  ghost predicate HonestAfter(p: Place, ops: seq<Op>)
    requires Good(p)
  {
    Paced(p, ops) ==> Inv(p, Run(p, ops)) && Honest(p, Run(p, ops))
  }

  /** Reads are honest in every run whose writer stays at most n - 1 blocks ahead, exactly when
      the placement satisfies the condition. */
  lemma HonestExactly(p: Place)
    requires Good(p)
    ensures (forall ops :: HonestAfter(p, ops)) <==> PlacementOk(p.start, p.n, p.b)
  {
    if PlacementOk(p.start, p.n, p.b) {
      forall ops ensures HonestAfter(p, ops) {
        if Paced(p, ops) {
          RunKeeps(p, ops);
          ReadHonest(p, Run(p, ops));
        }
      }
    } else {
      var ops := MisplacedRefuses(p);
    }
  }

  lemma MisplacedRefuses(p: Place) returns (ops: seq<Op>)
    requires Good(p) && !PlacementOk(p.start, p.n, p.b)
    ensures !HonestAfter(p, ops)
  {
    var i, j := RefusesWhenMisplaced(p.start, p.n, p.b);
    ops := ReachWrapped(p, i, j);
    RefusedRead(p, Run(p, ops));
  }

  /** A read that finds too little is not honest while a block is outstanding. */
  lemma RefusedRead(p: Place, s: Sys)
    requires Fits(p, s) && |s.got| < |s.written|
    requires Avail(s.ring.readAddr, s.ring.writeAddr, s.ring.totalBufSize) < p.b
    ensures !Honest(p, s)
  {
  }

  /** One block further and the ring looks empty: a write with n - 1 blocks outstanding brings
      the writer to the reader's address, and the next read is refused. */
  lemma OverrunLooksEmpty(p: Place, s: Sys, block: Block)
    requires Inv(p, s) && |block| == p.b && |s.written| + 1 == |s.got| + p.n
    ensures var r := Apply(p, s, W(block));
            r.ring.writeAddr == r.ring.readAddr && Read(r.ring, p.b).1 == NoData
  {
    var j := Slot(|s.written|, p.n);
    NextAddr(p, j);
    BlockFits(p, j);
    SlotAdd(|s.got|, p.n, p.n);
    assert Slot(|s.written| + 1, p.n) == Next(j, p.n);
  }

  /** The run that gets there from the start: n blocks written and none read. The next read is
      refused with all n blocks outstanding. */
  lemma OverrunRun(p: Place) returns (ops: seq<Op>)
    requires Good(p)
    ensures !Paced(p, ops) && !Honest(p, Run(p, ops))
    ensures var s := Run(p, ops);
            |s.written| == p.n && s.got == [] && Read(s.ring, p.b).1 == NoData
  {
    var full := ReachWrites(p, [], p.n - 1);
    var w := W(seq(p.b, _ => 0));
    RunKeeps(p, full);
    OverrunLooksEmpty(p, Run(p, full), w.block);
    PacedPrefix(p, full, w);
    RunSnoc(p, full, w);
    ops := full + [w];
  }

  // ----- the runs in which the ring is an honest queue -----

  /** Whenever the reader looks, after any part of the run, it gets the next block, or nothing exactly
      when none is outstanding. */
  ghost predicate HonestThroughout(p: Place, ops: seq<Op>)
    requires Good(p)
  {
    && Honest(p, Run(p, ops))
    && (ops != [] ==> HonestThroughout(p, ops[..|ops| - 1]))
  }

  /** One more operation keeps the ring honest exactly when it keeps the writer's pace. */
  lemma HonestStep(p: Place, ops: seq<Op>, op: Op)
    requires Good(p) && PlacementOk(p.start, p.n, p.b) && Paced(p, ops)
    ensures Honest(p, Run(p, ops + [op])) <==> Paced(p, ops + [op])
  {
    var s, more := Run(p, ops), ops + [op];
    RunKeeps(p, ops);
    PacedPrefix(p, ops, op);
    if Paced(p, more) {
      RunKeeps(p, more);
      ReadHonest(p, Run(p, more));
    } else {
      RunSnoc(p, ops, op);
      OverrunLooksEmpty(p, s, op.block);
    }
  }

  /** A well placed ring is an honest queue throughout a run exactly when the writer stays at most
      n - 1 blocks ahead. */
  lemma {:induction false} HonestIffPaced(p: Place, ops: seq<Op>)
    requires Good(p) && PlacementOk(p.start, p.n, p.b)
    ensures HonestThroughout(p, ops) <==> Paced(p, ops)
  {
    if ops == [] {
      RunKeeps(p, ops);
      ReadHonest(p, Run(p, ops));
    } else {
      var init, op := ops[..|ops| - 1], ops[|ops| - 1];
      assert ops == init + [op];
      HonestIffPaced(p, init);
      PacedPrefix(p, init, op);
      if Paced(p, init) {
        HonestStep(p, init, op);
      }
    }
  }
}
