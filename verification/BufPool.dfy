/** The reference-counted buffer pool. */
module BufPool {
  import opened Common
  import TapAddress

  /** Allocation state of a pool. */
  datatype Pool = Pool(used: seq<bool>, ref: seq<int>, lastAlloc: nat,
                       gets: nat, frees: nat, getErrs: nat)

  ghost predicate WellFormed(p: Pool) {
    && |p.ref| == |p.used|
    && (p.lastAlloc < |p.used| || p.lastAlloc == 0)
    && forall i :: 0 <= i < |p.used| ==> p.ref[i] == if p.used[i] then 1 else 0
  }

  function CountUsed(used: seq<bool>): (n: nat)
    ensures n <= |used|
  {
    if used == [] then 0
    else CountUsed(used[..|used| - 1]) + if used[|used| - 1] then 1 else 0
  }

  /** Buffer `i` is free and every buffer met before it, going cyclically up from
      `from`, is in use. */
  ghost predicate FirstFree(used: seq<bool>, from: nat, i: nat) {
    && i < |used|
    && !used[i]
    && if i >= from then forall j :: from <= j < i ==> used[j]
       else (forall j :: from <= j < |used| ==> used[j]) && (forall j :: 0 <= j < i ==> used[j])
  }

  function Fresh(size: nat): Pool {
    Pool(seq(size, _ => false), seq(size, _ => 0), 0, 0, 0, 0)
  }

  function Take(p: Pool, i: nat): Pool
    requires i < |p.used| == |p.ref|
  {
    p.(used := p.used[i := true], ref := p.ref[i := 1], lastAlloc := i, gets := p.gets + 1)
  }

  function Release(p: Pool, i: nat): Pool
    requires i < |p.used| == |p.ref|
  {
    if p.ref[i] > 0 then
      p.(ref := p.ref[i := p.ref[i] - 1],
         used := if p.ref[i] == 1 then p.used[i := false] else p.used,
         frees := p.frees + 1)
    else p.(frees := p.frees + 1)
  }

  /** A cleared payload. */
  function Zeros(): seq<Byte> { seq(TapAddress.ETH_FRAME_SIZE, _ => 0) }

  // ----- the pool objects -----

  /** One pool, with its buffers' fields kept as parallel arrays. */
  class BufPool {
    var poolId: nat
    var lastAlloc: nat
    var numBufGet: nat
    var numBufFree: nat
    var numBufGetErr: nat
    const maxSize: nat
    const isUsed: array<bool>
    const refCount: array<int>
    const bufPoolId: array<nat>
    const payload: array<seq<Byte>>
    const payloadLen: array<nat>

    ghost predicate Valid()
      reads this, isUsed, refCount, bufPoolId
    {
      && maxSize <= TapAddress.NUM_BUFFERS
      && isUsed.Length == refCount.Length == bufPoolId.Length == maxSize
      && payload.Length == payloadLen.Length == maxSize
      && payloadLen != bufPoolId
      && (forall i :: 0 <= i < maxSize ==> bufPoolId[i] == poolId)
      && WellFormed(State())
    }

    ghost function State(): Pool
      reads this, isUsed, refCount
    {
      Pool(isUsed[..], refCount[..], lastAlloc, numBufGet, numBufFree, numBufGetErr)
    }

    constructor (id: nat, size: nat)
      requires size <= TapAddress.NUM_BUFFERS
      ensures Valid() && maxSize == size && poolId == id
      ensures fresh(isUsed) && fresh(refCount) && fresh(bufPoolId) && fresh(payload) && fresh(payloadLen)
      ensures State() == Fresh(size)
      ensures forall i :: 0 <= i < size ==> payload[i] == Zeros() && payloadLen[i] == 0
    {
      poolId, lastAlloc, numBufGet, numBufFree, numBufGetErr := id, 0, 0, 0, 0;
      maxSize := size;
      isUsed := new bool[size](_ => false);
      refCount := new int[size](_ => 0);
      bufPoolId := new nat[size](_ => id);
      payload := new seq<Byte>[size](_ => Zeros());
      payloadLen := new nat[size](_ => 0);
    }

    method Mark(index: nat)
      requires Valid() && index < maxSize && !isUsed[index]
      modifies this`lastAlloc, this`numBufGet, isUsed, refCount
      ensures Valid() && State() == Take(old(State()), index)
    {
      isUsed[index] := true;
      refCount[index] := 1;
      lastAlloc := index;
      numBufGet := numBufGet + 1;
      assert isUsed[..] == old(isUsed[..])[index := true];
      assert refCount[..] == old(refCount[..])[index := 1];
    }

    /** Takes the first free buffer in cyclic order from the last allocation, or reports
        that every buffer is in use. */
    method GetBuf() returns (buf: Option<nat>)
      requires Valid()
      modifies this`lastAlloc, this`numBufGet, this`numBufGetErr, isUsed, refCount
      ensures Valid()
      ensures buf.None? <==> forall i :: 0 <= i < maxSize ==> old(isUsed[..])[i]
      ensures buf.None? ==> State() == old(State()).(getErrs := old(numBufGetErr) + 1)
      ensures buf.Some? ==> FirstFree(old(isUsed[..]), old(lastAlloc), buf.value)
                            && State() == Take(old(State()), buf.value)
    {
      var index := lastAlloc;
      while index < maxSize
        invariant lastAlloc <= index
        invariant index <= maxSize || index == 0
        invariant forall j :: lastAlloc <= j < index ==> isUsed[j]
      {
        if !isUsed[index] {
          Mark(index);
          return Some(index);
        }
        index := index + 1;
      }
      if index == maxSize {
        index := 0;
        while index < lastAlloc
          invariant index <= lastAlloc
          invariant forall j :: 0 <= j < index ==> isUsed[j]
        {
          if !isUsed[index] {
            Mark(index);
            return Some(index);
          }
          index := index + 1;
        }
      }
      numBufGetErr := numBufGetErr + 1;
      return None;
    }
  }

  /** The table through which a freed buffer finds the pool to charge. */
  ghost predicate ValidTable(table: seq<BufPool>)
    reads table
  {
    && (forall p :: 0 <= p < |table| ==> table[p].poolId == p)
  }

  /** Drops one reference of buffer `buf`, marks it free when none is left, and charges the
      free to the pool named by the buffer itself. */
  method FreeBuf(table: seq<BufPool>, pool: BufPool, buf: nat)
    requires ValidTable(table) && pool in table
    requires pool.Valid() && buf < pool.maxSize
    modifies pool.isUsed, pool.refCount, set p | p in table :: p`numBufFree
    ensures pool.Valid() && ValidTable(table)
    ensures pool.State() == Release(old(pool.State()), buf)
    ensures forall p :: p in table && p != pool ==> p.numBufFree == old(p.numBufFree)
  {
    if pool.refCount[buf] > 0 {
      pool.refCount[buf] := pool.refCount[buf] - 1;
      if pool.refCount[buf] == 0 {
        pool.isUsed[buf] := false;
      }
    }
    var charged := table[pool.bufPoolId[buf]];
    charged.numBufFree := charged.numBufFree + 1;
    assert pool.State().used == Release(old(pool.State()), buf).used;
    assert pool.State().ref == Release(old(pool.State()), buf).ref;
  }

  // ----- whole runs of a pool -----

  datatype Op = Get | Free(buf: nat)

  /** Index of the buffer `Get` takes: the search of the source, as a function. */
  function Search(used: seq<bool>, i: nat, until: nat): (r: Option<nat>)
    requires i <= until <= |used|
    ensures r.None? ==> forall j :: i <= j < until ==> used[j]
    ensures r.Some? ==> i <= r.value < until && !used[r.value]
                        && forall j :: i <= j < r.value ==> used[j]
    decreases until - i
  {
    if i == until then None else if !used[i] then Some(i) else Search(used, i + 1, until)
  }

  function Pick(p: Pool): (r: Option<nat>)
    requires WellFormed(p)
    ensures r.None? <==> forall i :: 0 <= i < |p.used| ==> p.used[i]
    ensures r.Some? ==> FirstFree(p.used, p.lastAlloc, r.value)
  {
    var up := Search(p.used, p.lastAlloc, |p.used|);
    if up.Some? then up else Search(p.used, 0, p.lastAlloc)
  }

  function Apply(p: Pool, op: Op): (r: Pool)
    requires WellFormed(p)
    ensures WellFormed(r) && |r.used| == |p.used|
  {
    match op
    case Get =>
      var i := Pick(p);
      if i.None? then p.(getErrs := p.getErrs + 1) else Take(p, i.value)
    case Free(b) => if b < |p.used| then Release(p, b) else p
  }

  function Run(size: nat, ops: seq<Op>): (p: Pool)
    ensures WellFormed(p) && |p.used| == size
  {
    if ops == [] then Fresh(size) else Apply(Run(size, ops[..|ops| - 1]), ops[|ops| - 1])
  }

  /** How many frees of the run named a buffer that was not in use at that moment. */
  function IdleFrees(size: nat, ops: seq<Op>): nat {
    if ops == [] then 0
    else
      var init, op := ops[..|ops| - 1], ops[|ops| - 1];
      IdleFrees(size, init)
      + if op.Free? && op.buf < size && !Run(size, init).used[op.buf] then 1 else 0
  }

  lemma {:induction false} CountUpdate(used: seq<bool>, i: nat, b: bool)
    requires i < |used|
    ensures CountUsed(used[i := b]) + (if used[i] then 1 else 0) == CountUsed(used) + (if b then 1 else 0)
  {
    var n := |used| - 1;
    if i < n {
      assert used[i := b][..n] == used[..n][i := b];
      CountUpdate(used[..n], i, b);
    } else {
      assert used[i := b][..n] == used[..n];
    }
  }

  lemma {:induction false} CountNone(size: nat)
    ensures CountUsed(seq(size, _ => false)) == 0
  {
    if size > 0 {
      assert seq(size, _ => false)[..size - 1] == seq(size - 1, _ => false);
      CountNone(size - 1);
    }
  }

  /** In every run the statistics balance: gets are frees of used buffers plus buffers in
      use. So gets minus frees is the number in use exactly in the runs that never free
      an idle buffer. */
  lemma {:induction false} GetsMinusFrees(size: nat, ops: seq<Op>)
    ensures var p := Run(size, ops);
            && p.gets + IdleFrees(size, ops) == p.frees + CountUsed(p.used)
            && (p.gets - p.frees == CountUsed(p.used) <==> IdleFrees(size, ops) == 0)
  {
    if ops == [] {
      CountNone(size);
    } else {
      var init, op := ops[..|ops| - 1], ops[|ops| - 1];
      GetsMinusFrees(size, init);
      var p := Run(size, init);
      match op
      case Get =>
        if Pick(p).Some? {
          CountUpdate(p.used, Pick(p).value, true);
        }
      case Free(b) =>
        if b < size && p.used[b] {
          CountUpdate(p.used, b, false);
        }
    }
  }

  /** Gets, successful or not, of a run, and its frees of buffers of the pool. */
  function Gets(ops: seq<Op>): nat {
    if ops == [] then 0 else Gets(ops[..|ops| - 1]) + if ops[|ops| - 1].Get? then 1 else 0
  }

  function Frees(size: nat, ops: seq<Op>): nat {
    if ops == [] then 0
    else
      var op := ops[|ops| - 1];
      Frees(size, ops[..|ops| - 1]) + if op.Free? && op.buf < size then 1 else 0
  }

  /** Every get is counted either as a get or as an error, and every free as a free. */
  lemma {:induction false} EveryCallCounted(size: nat, ops: seq<Op>)
    ensures var p := Run(size, ops);
            p.gets + p.getErrs == Gets(ops) && p.frees == Frees(size, ops)
  {
    if ops != [] {
      EveryCallCounted(size, ops[..|ops| - 1]);
    }
  }

  /** A get is refused exactly when every buffer is in use; else it uses up one free buffer, referenced
      once, and the next search starts there. */
  lemma GetExactly(p: Pool)
    requires WellFormed(p)
    ensures var q := Apply(p, Get);
            if forall i :: 0 <= i < |p.used| ==> p.used[i]
            then q == p.(getErrs := p.getErrs + 1)
            else
              exists b: nat :: && FirstFree(p.used, p.lastAlloc, b)
                          && q.used == p.used[b := true] && |q.ref| == |p.ref| && q.ref[b] == 1
                          && q.gets == p.gets + 1 && q.getErrs == p.getErrs
                          && (Pick(q).Some? ==> FirstFree(p.used[b := true], b, Pick(q).value))
  {
    if Pick(p).Some? {
      assert FirstFree(p.used, p.lastAlloc, Pick(p).value);
    }
  }
}
