/** Whole runs of the multicast filter: any sequence of adds and deletes by any ports and
    cores, with any driver failures. */
module McastRuns {
  import opened Common
  import opened McastSpec

  datatype Op = Op(add: bool, port: VirtPort, mac: Mac, vlan: nat, core: nat, io: Io)

  /** An operation as it turned out; `fdbOk` tells whether the bridge took its forwarding entry. */
  datatype Event = Event(add: bool, port: VirtPort, mac: Mac, core: nat, status: Status, fdbOk: bool)

  datatype World = World(filter: Filter, ale: Ale, bridge: Bridge, log: seq<Event>)

  function Perform(w: World, op: Op): Result
    requires |w.bridge.masks| == |w.bridge.table|
  {
    if op.add then AddMac(w.filter, w.ale, w.bridge, op.port, op.mac, op.vlan, op.core, op.io)
    else DelMac(w.filter, w.ale, w.bridge, op.port, op.mac, op.vlan, op.core, op.io)
  }

  function Do(w: World, op: Op): (r: World)
    requires |w.bridge.masks| == |w.bridge.table|
    ensures |r.bridge.masks| == |r.bridge.table|
  {
    var res := Perform(w, op);
    World(res.filter, res.ale, res.bridge,
          w.log + [Event(op.add, op.port, op.mac, op.core, res.status, op.io.fdbOk)])
  }

  function Run(w: World, ops: seq<Op>): (r: World)
    requires |w.bridge.masks| == |w.bridge.table|
    ensures |r.bridge.masks| == |r.bridge.table|
  {
    if ops == [] then w else Do(Run(w, ops[..|ops| - 1]), ops[|ops| - 1])
  }

  /** A world right after initialisation with any configuration, ALE and bridge. */
  ghost predicate Initial(w: World) {
    && (exists cfg :: w.filter == InitFilter(cfg).0)
    && |w.bridge.masks| == |w.bridge.table|
    && w.log == []
  }

  predicate IsShared(f: Filter, mac: Mac) { FindShared(f.shared, mac, 0).Some? }

  function OwnerEntry(f: Filter, mac: Mac): Option<nat> { FindExcl(f.excl, mac, 0) }

  /** The operation will fail after taking an exclusive slot, and keep it: an add of an address that
      is neither reserved nor shared nor in use, that the switch does not have, with a free slot left,
      for which the driver refuses the address or the classifier. */
  predicate LeakGuard(w: World, op: Op) {
    && op.add
    && !FindRsvd(w.filter.rsvd, op.mac, op.vlan, 0)
    && !IsShared(w.filter, op.mac)
    && OwnerEntry(w.filter, op.mac).None?
    && !op.io.lookupErr
    && op.mac !in w.ale.entries
    && FindSlot(w.filter.excl, 0).Some?
    && !(op.io.addOk && op.io.policerOk)
  }

  /** An operation fails and still changes the exclusive table exactly under that condition. */
  lemma LeaksExactly(w: World, op: Op)
    requires |w.bridge.masks| == |w.bridge.table|
    ensures Perform(w, op).status != Sok && Perform(w, op).filter.excl != w.filter.excl
       <==> LeakGuard(w, op)
  {
    var slot := FindSlot(w.filter.excl, 0);
    if LeakGuard(w, op) {
      assert !Perform(w, op).filter.excl[slot.value].isFree;
    }
  }

  // ----- exclusive table: what every operation keeps -----

  ghost predicate ExclInv(f: Filter) {
    && |f.excl| == EXCL_LEN
    && (forall i :: 0 <= i < |f.excl| ==> (f.excl[i].isFree <==> f.excl[i].refCnt == 0))
    && (forall i, j :: 0 <= i < j < |f.excl| && !f.excl[i].isFree && !f.excl[j].isFree ==>
          f.excl[i].mac != f.excl[j].mac)
    && (forall i :: 0 <= i < |f.excl| && !f.excl[i].isFree ==> !IsShared(f, f.excl[i].mac))
  }

  /** The shared table keeps its addresses and masks. */
  ghost predicate SameShared(f: Filter, g: Filter) {
    && |f.shared| == |g.shared|
    && forall k :: 0 <= k < |f.shared| ==> g.shared[k] == f.shared[k].(refCnt := g.shared[k].refCnt)
  }

  lemma SharedLookupSame(f: Filter, g: Filter, mac: Mac)
    requires SameShared(f, g)
    ensures FindShared(f.shared, mac, 0) == FindShared(g.shared, mac, 0)
  {
    var i, j := FindShared(f.shared, mac, 0), FindShared(g.shared, mac, 0);
    if i.Some? { assert g.shared[i.value].mac == mac; }
    if j.Some? { assert f.shared[j.value].mac == mac; }
  }

  lemma PerformSameShared(w: World, op: Op)
    requires |w.bridge.masks| == |w.bridge.table|
    ensures SameShared(w.filter, Perform(w, op).filter)
    ensures Perform(w, op).filter.switchMask == w.filter.switchMask
  {
  }

  /** The table facts that do not mention the shared table. */
  ghost predicate TableInv(t: seq<Excl>) {
    && |t| == EXCL_LEN
    && (forall i :: 0 <= i < |t| ==> (t[i].isFree <==> t[i].refCnt == 0))
    && (forall i, j :: 0 <= i < j < |t| && !t[i].isFree && !t[j].isFree ==> t[i].mac != t[j].mac)
  }

  lemma TableKeeps(w: World, op: Op)
    requires |w.bridge.masks| == |w.bridge.table| && TableInv(w.filter.excl)
    ensures TableInv(Perform(w, op).filter.excl)
  {
  }

  lemma NoNewShared(w: World, op: Op)
    requires |w.bridge.masks| == |w.bridge.table| && ExclInv(w.filter)
    ensures var g := Perform(w, op).filter;
            forall i :: 0 <= i < |g.excl| && !g.excl[i].isFree ==> !IsShared(w.filter, g.excl[i].mac)
  {
  }

  lemma ExclKeeps(w: World, op: Op)
    requires |w.bridge.masks| == |w.bridge.table| && ExclInv(w.filter)
    ensures ExclInv(Perform(w, op).filter)
  {
    TableKeeps(w, op);
    NoNewShared(w, op);
    PerformSameShared(w, op);
    var g := Perform(w, op).filter;
    forall i | 0 <= i < |g.excl| && !g.excl[i].isFree
      ensures !IsShared(g, g.excl[i].mac)
    {
      SharedLookupSame(w.filter, g, g.excl[i].mac);
    }
  }

  lemma {:induction false} RunExcl(w: World, ops: seq<Op>)
    requires |w.bridge.masks| == |w.bridge.table| && ExclInv(w.filter)
    ensures ExclInv(Run(w, ops).filter)
    ensures SameShared(w.filter, Run(w, ops).filter)
    ensures Run(w, ops).filter.switchMask == w.filter.switchMask
  {
    if ops != [] {
      RunExcl(w, ops[..|ops| - 1]);
      ExclKeeps(Run(w, ops[..|ops| - 1]), ops[|ops| - 1]);
      PerformSameShared(Run(w, ops[..|ops| - 1]), ops[|ops| - 1]);
    }
  }

  lemma InitialExcl(w: World)
    requires Initial(w)
    ensures ExclInv(w.filter)
  {
  }

  /** In every run, with any failures: an exclusive address has at most one entry in use, it is
      not a shared address, and an entry is free exactly when its count is zero. */
  lemma ExclusiveTableSound(w: World, ops: seq<Op>)
    requires Initial(w)
    ensures var t := Run(w, ops).filter.excl;
            && |t| == EXCL_LEN
            && (forall i, j :: 0 <= i < j < |t| && !t[i].isFree && !t[j].isFree ==> t[i].mac != t[j].mac)
            && (forall i :: 0 <= i < |t| ==> (t[i].isFree <==> t[i].refCnt == 0))
            && (forall i, k :: 0 <= i < |t| && !t[i].isFree && 0 <= k < |w.filter.shared| ==>
                  t[i].mac != w.filter.shared[k].mac)
  {
    InitialExcl(w);
    RunExcl(w, ops);
    var f := Run(w, ops).filter;
    forall i, k | 0 <= i < |f.excl| && !f.excl[i].isFree && 0 <= k < |w.filter.shared|
      ensures f.excl[i].mac != w.filter.shared[k].mac
    {
      assert f.shared[k].mac == w.filter.shared[k].mac;
    }
  }

  /** The lookup finds the entry in use, wherever it is. */
  lemma FindInUse(f: Filter, i: nat)
    requires ExclInv(f) && i < EXCL_LEN && !f.excl[i].isFree
    ensures OwnerEntry(f, f.excl[i].mac) == Some(i)
    ensures FindShared(f.shared, f.excl[i].mac, 0).None?
  {
    assert InUseFor(f.excl[i], f.excl[i].mac);
  }

  // ----- counting successful operations -----

  /** Successful adds (deletes) of the address, by one port or by any. */
  function OkCount(log: seq<Event>, add: bool, port: Option<VirtPort>, mac: Mac): nat {
    if log == [] then 0
    else
      var e := log[|log| - 1];
      OkCount(log[..|log| - 1], add, port, mac)
      + if e.add == add && e.status == Sok && e.mac == mac && (port.None? || e.port == port.value) then 1 else 0
  }

  /** How many operations of the run are adds of the address by the port that leak a slot,
      judged in the state before each. */
  function LeakCount(w: World, ops: seq<Op>, port: VirtPort, mac: Mac): nat
    requires |w.bridge.masks| == |w.bridge.table|
  {
    if ops == [] then 0
    else
      var init, op := ops[..|ops| - 1], ops[|ops| - 1];
      LeakCount(w, init, port, mac)
      + if LeakGuard(Run(w, init), op) && op.mac == mac && op.port == port then 1 else 0
  }

  /** The count stored for the address if `port` owns it, else 0. */
  function StoredCount(f: Filter, port: VirtPort, mac: Mac): nat {
    var i := OwnerEntry(f, mac);
    if i.Some? && f.excl[i.value].virtPort == port then f.excl[i.value].refCnt else 0
  }

  /** Successful adds minus successful deletes of the address by the port. */
  function Net(w: World, port: VirtPort, mac: Mac): int {
    OkCount(w.log, true, Some(port), mac) - OkCount(w.log, false, Some(port), mac)
  }

  /** Operations on another address leave the entry of this one alone. */
  lemma OtherMacSame(w: World, op: Op, mac: Mac)
    requires |w.bridge.masks| == |w.bridge.table| && ExclInv(w.filter) && op.mac != mac
    ensures OwnerEntry(Perform(w, op).filter, mac) == OwnerEntry(w.filter, mac)
    ensures var i := OwnerEntry(w.filter, mac);
            i.Some? ==> Perform(w, op).filter.excl[i.value] == w.filter.excl[i.value]
  {
    var f, g := w.filter, Perform(w, op).filter;
    assert forall k :: 0 <= k < |f.excl| ==>
             g.excl[k] == f.excl[k] || (!InUseFor(f.excl[k], mac) && !InUseFor(g.excl[k], mac));
    var i, j := OwnerEntry(f, mac), OwnerEntry(g, mac);
    if i.Some? { assert InUseFor(g.excl[i.value], mac); }
    if j.Some? { assert InUseFor(f.excl[j.value], mac); }
  }

  /** What an operation does to the entry of its own, not shared, address. */
  lemma OwnMacEntry(w: World, op: Op)
    requires |w.bridge.masks| == |w.bridge.table| && ExclInv(w.filter) && !IsShared(w.filter, op.mac)
    ensures var f, res := w.filter, Perform(w, op);
            var i, j := OwnerEntry(f, op.mac), OwnerEntry(res.filter, op.mac);
            if i.None? then
              if op.add && (res.status == Sok || LeakGuard(w, op))
              then j.Some? && res.filter.excl[j.value] == Excl(op.mac, op.port, 1, false)
              else res.status != Sok && !LeakGuard(w, op) && j.None?
            else
              var e := f.excl[i.value];
              && !LeakGuard(w, op)
              && e.refCnt > 0
              && if res.status != Sok then j == i && res.filter.excl[i.value] == e
                 else
                   && op.port == e.virtPort
                   && if op.add then j == i && res.filter.excl[i.value] == e.(refCnt := e.refCnt + 1)
                      else if e.refCnt == 1 then j.None?
                      else j == i && res.filter.excl[i.value] == e.(refCnt := e.refCnt - 1)
  {
    var f, res := w.filter, Perform(w, op);
    ExclKeeps(w, op);
    var i, j := OwnerEntry(f, op.mac), OwnerEntry(res.filter, op.mac);
    if i.Some? {
      if !res.filter.excl[i.value].isFree {
        FindInUse(res.filter, i.value);
      }
    } else {
      var slot := FindSlot(f.excl, 0);
      if slot.Some? && res.filter.excl != f.excl {
        assert InUseFor(res.filter.excl[slot.value], op.mac);
        FindInUse(res.filter, slot.value);
      }
    }
  }

  /** One operation moves the stored count and the net count alike, unless it leaks. */
  lemma BalanceStep(w: World, op: Op, port: VirtPort, mac: Mac)
    requires |w.bridge.masks| == |w.bridge.table| && ExclInv(w.filter) && !IsShared(w.filter, mac)
    ensures StoredCount(Do(w, op).filter, port, mac) - Net(Do(w, op), port, mac)
         == StoredCount(w.filter, port, mac) - Net(w, port, mac)
            + if LeakGuard(w, op) && op.mac == mac && op.port == port then 1 else 0
  {
    assert Do(w, op).log[..|w.log|] == w.log;
    if op.mac == mac {
      OwnMacEntry(w, op);
    } else {
      OtherMacSame(w, op, mac);
    }
  }

  /** In every run the count stored for a port's exclusive address is its successful adds minus
      its successful deletes plus the adds that leak a slot. So it is exactly adds minus deletes
      in the runs in which no add meets the leak condition, and only in those. */
  lemma {:induction false} ExclusiveCount(w: World, ops: seq<Op>, port: VirtPort, mac: Mac)
    requires Initial(w) && !IsShared(w.filter, mac)
    ensures var r := Run(w, ops);
            && StoredCount(r.filter, port, mac) == Net(r, port, mac) + LeakCount(w, ops, port, mac)
            && (StoredCount(r.filter, port, mac) == Net(r, port, mac) <==> LeakCount(w, ops, port, mac) == 0)
  {
    InitialExcl(w);
    if ops != [] {
      var init := ops[..|ops| - 1];
      ExclusiveCount(w, init, port, mac);
      RunExcl(w, init);
      SharedLookupSame(w.filter, Run(w, init).filter, mac);
      BalanceStep(Run(w, init), ops[|ops| - 1], port, mac);
    }
  }

  // ----- ownership -----

  /** What one operation may do to an entry in use. */
  ghost predicate OwnerKept(w: World, op: Op, i: nat)
    requires |w.bridge.masks| == |w.bridge.table| && i < |w.filter.excl|
  {
    var e, res := w.filter.excl[i], Perform(w, op);
    && |res.filter.excl| == |w.filter.excl|
    && (res.filter.excl[i].isFree ==>
          !op.add && op.port == e.virtPort && op.mac == e.mac && res.status == Sok && e.refCnt == 1)
    && (!res.filter.excl[i].isFree ==>
          res.filter.excl[i].mac == e.mac && res.filter.excl[i].virtPort == e.virtPort)
    && (op.mac == e.mac && op.port != e.virtPort ==>
          res.status != Sok && res.filter == w.filter && res.ale == w.ale)
  }

  lemma OwnerStep(w: World, op: Op, i: nat)
    requires |w.bridge.masks| == |w.bridge.table| && ExclInv(w.filter)
    requires i < EXCL_LEN && !w.filter.excl[i].isFree
    ensures OwnerKept(w, op, i)
  {
    FindInUse(w.filter, i);
    ExclKeeps(w, op);
    if op.mac != w.filter.excl[i].mac {
      OtherMacSame(w, op, w.filter.excl[i].mac);
    }
  }

  /** In every run: while an entry is in use only a successful delete by its owner can free it,
      nothing changes its address or owner, and every operation on the address by another port
      fails and changes nothing. */
  lemma OnlyOwnerFrees(w: World, ops: seq<Op>, op: Op, i: nat)
    requires Initial(w) && i < |Run(w, ops).filter.excl| && !Run(w, ops).filter.excl[i].isFree
    ensures OwnerKept(Run(w, ops), op, i)
  {
    InitialExcl(w);
    RunExcl(w, ops);
    OwnerStep(Run(w, ops), op, i);
  }

  // ----- agreement of the exclusive table with the switch -----

  predicate NoPolicer(ale: Ale, mac: Mac) { forall key :: key in ale.policers ==> key.0 != mac }

  /** The address is in the switch, with the owner's mask and the owner's classifier and no other,
      exactly while its entry is in use. */
  ghost predicate Agrees(w: World, mac: Mac) {
    var i := OwnerEntry(w.filter, mac);
    if i.None? then mac !in w.ale.entries && NoPolicer(w.ale, mac)
    else
      var owner := w.filter.excl[i.value].virtPort;
      && mac in w.ale.entries
      && w.ale.entries[mac] == ExclMask(w.filter.switchMask, owner)
      && PolicerKey(mac, owner) in w.ale.policers
      && forall key :: key in w.ale.policers && key.0 == mac ==> key == PolicerKey(mac, owner)
  }

  lemma OtherMacAle(w: World, op: Op, mac: Mac)
    requires |w.bridge.masks| == |w.bridge.table| && op.mac != mac
    ensures var ale := Perform(w, op).ale;
            && (mac in ale.entries <==> mac in w.ale.entries)
            && (mac in ale.entries ==> ale.entries[mac] == w.ale.entries[mac])
            && (forall key: (Mac, Option<nat>) :: key.0 == mac ==> (key in ale.policers <==> key in w.ale.policers))
  {
  }

  /** A step keeps the agreement exactly when it does not leak a slot for the address. */
  lemma AgreementStep(w: World, op: Op, mac: Mac)
    requires |w.bridge.masks| == |w.bridge.table| && ExclInv(w.filter) && !IsShared(w.filter, mac)
    requires Agrees(w, mac)
    ensures Agrees(Do(w, op), mac) <==> !(LeakGuard(w, op) && op.mac == mac)
  {
    PerformSameShared(w, op);
    if op.mac == mac {
      OwnMacEntry(w, op);
      var i := OwnerEntry(w.filter, mac);
      if i.Some? {
        AgreementUsed(w, op, i.value);
      } else {
        AgreementFree(w, op);
      }
    } else {
      OtherMacSame(w, op, mac);
      OtherMacAle(w, op, mac);
    }
  }

  lemma AgreementUsed(w: World, op: Op, i: nat)
    requires |w.bridge.masks| == |w.bridge.table| && ExclInv(w.filter) && !IsShared(w.filter, op.mac)
    requires Agrees(w, op.mac) && OwnerEntry(w.filter, op.mac) == Some(i)
    ensures Agrees(Do(w, op), op.mac)
  {
    OwnMacEntry(w, op);
    PerformSameShared(w, op);
  }

  lemma AgreementFree(w: World, op: Op)
    requires |w.bridge.masks| == |w.bridge.table| && ExclInv(w.filter) && !IsShared(w.filter, op.mac)
    requires Agrees(w, op.mac) && OwnerEntry(w.filter, op.mac).None?
    ensures Agrees(Do(w, op), op.mac) <==> !LeakGuard(w, op)
  {
    OwnMacEntry(w, op);
    PerformSameShared(w, op);
  }

  /** No operation of the run leaks a slot for the address. */
  ghost predicate LeakFree(w: World, ops: seq<Op>, mac: Mac)
    requires |w.bridge.masks| == |w.bridge.table|
  {
    forall k :: 0 <= k < |ops| ==> !(LeakGuard(Run(w, ops[..k]), ops[k]) && ops[k].mac == mac)
  }

  /** Table and switch agree on the address after the run and after each of its prefixes. */
  ghost predicate AgreesThroughout(w: World, ops: seq<Op>, mac: Mac)
    requires |w.bridge.masks| == |w.bridge.table|
  {
    Agrees(Run(w, ops), mac) && (ops != [] ==> AgreesThroughout(w, ops[..|ops| - 1], mac))
  }

  lemma LeakFreeSnoc(w: World, ops: seq<Op>, mac: Mac)
    requires |w.bridge.masks| == |w.bridge.table| && ops != []
    ensures var init, op := ops[..|ops| - 1], ops[|ops| - 1];
            LeakFree(w, ops, mac) <==>
              LeakFree(w, init, mac) && !(LeakGuard(Run(w, init), op) && op.mac == mac)
  {
    var n := |ops| - 1;
    forall k | 0 <= k < n ensures ops[..n][..k] == ops[..k] && ops[..n][k] == ops[k] { }
    if LeakFree(w, ops, mac) {
      forall k | 0 <= k < n
        ensures !(LeakGuard(Run(w, ops[..n][..k]), ops[..n][k]) && ops[..n][k].mac == mac)
      {
        assert ops[..n][..k] == ops[..k];
      }
    }
  }

  /** For an address initially absent from the switch: table and switch agree on it throughout a
      run, even with failing deletes and lookups, exactly when no operation of the run leaks. */
  lemma {:induction false} ExclusiveAgreement(w: World, ops: seq<Op>, mac: Mac)
    requires Initial(w) && !IsShared(w.filter, mac)
    requires mac !in w.ale.entries && NoPolicer(w.ale, mac)
    ensures AgreesThroughout(w, ops, mac) <==> LeakFree(w, ops, mac)
  {
    InitialExcl(w);
    if ops != [] {
      var init, op := ops[..|ops| - 1], ops[|ops| - 1];
      var r := Run(w, init);
      ExclusiveAgreement(w, init, mac);
      LeakFreeSnoc(w, ops, mac);
      if AgreesThroughout(w, init, mac) {
        RunExcl(w, init);
        SharedLookupSame(w.filter, r.filter, mac);
        AgreementStep(r, op, mac);
      }
    }
  }

  // ----- a leak -----

  const ALL_OK: Io := Io(false, true, true, true, true)

  /** A firmware with no shared or reserved addresses, an empty switch and no bridge. */
  function BareWorld(): World {
    World(InitFilter(Config([], [], {})).0, Ale(map[], {}), Bridge([], [], map[], map[]), [])
  }

  /** A run in which the driver refuses the address: the add reports failure, the entry is in use,
      the switch does not have the address, and the count is one ahead of the successful adds. The
      owner's next add then reports success, still without the address in the switch. */
  lemma LeakRun(mac: Mac, port: VirtPort)
    ensures var w := BareWorld();
            var refused := Op(true, port, mac, 0, 0, ALL_OK.(addOk := false));
            var again := Op(true, port, mac, 0, 0, ALL_OK);
            var r := Run(w, [refused]);
            && Initial(w) && !IsShared(w.filter, mac) && mac !in w.ale.entries && NoPolicer(w.ale, mac)
            && LeakGuard(w, refused)
            && Perform(w, refused).status != Sok
            && !Agrees(r, mac)
            && StoredCount(r.filter, port, mac) == 1 && Net(r, port, mac) == 0
            && Perform(r, again).status == Sok
            && mac !in Perform(r, again).ale.entries
  {
    var w := BareWorld();
    var refused := Op(true, port, mac, 0, 0, ALL_OK.(addOk := false));
    assert w.filter == InitFilter(Config([], [], {})).0;
    assert Initial(w);
    assert FindSlot(w.filter.excl, 0) == Some(0);
    assert [refused][..0] == [];
    assert Run(w, []) == w;
    var r := Run(w, [refused]);
    assert r == Do(w, refused);
    InitialExcl(w);
    ExclKeeps(w, refused);
    assert r.filter.excl[0] == Excl(mac, port, 1, false);
    FindInUse(r.filter, 0);
    assert r.log[..0] == [];
    ExclusiveCount(w, [refused], port, mac);
  }

  /** A successful add of an exclusive address leaves it in the switch exactly when the address was
      not in use before, or was in the switch already. */
  lemma AddedIsInSwitch(w: World, op: Op)
    requires |w.bridge.masks| == |w.bridge.table| && ExclInv(w.filter) && !IsShared(w.filter, op.mac)
    requires op.add
    ensures var r := Perform(w, op);
            r.status == Sok ==>
              (op.mac in r.ale.entries <==> OwnerEntry(w.filter, op.mac).None? || op.mac in w.ale.entries)
  {
    var i := OwnerEntry(w.filter, op.mac);
  }

  /** Deleting undoes adding: after a successful exclusive add, a delete by the same port that the
      driver accepts succeeds and restores the switch and the count of every port and address. */
  lemma DeleteUndoesAdd(w: World, op: Op, undo: Op)
    requires |w.bridge.masks| == |w.bridge.table| && ExclInv(w.filter)
    requires !IsShared(w.filter, op.mac) && Agrees(w, op.mac)
    requires op.add && undo == op.(add := false, io := undo.io) && undo.io.removeOk
    requires Perform(w, op).status == Sok
    ensures var r := Perform(Do(w, op), undo);
            && r.status == Sok
            && r.ale == w.ale
            && forall port, mac :: StoredCount(r.filter, port, mac) == StoredCount(w.filter, port, mac)
  {
    var v := Do(w, op);
    ExclKeeps(w, op);
    PerformSameShared(w, op);
    SharedLookupSame(w.filter, v.filter, op.mac);
    OwnMacEntry(w, op);
    OwnMacEntry(v, undo);
    var r := Perform(v, undo);
    assert r.ale.entries == w.ale.entries;
    assert r.ale.policers == w.ale.policers;
    forall port, mac
      ensures StoredCount(r.filter, port, mac) == StoredCount(w.filter, port, mac)
    {
      if mac != op.mac {
        OtherMacSame(w, op, mac);
        OtherMacSame(v, undo, mac);
      }
    }
  }

  // ----- shared addresses -----

  ghost predicate DistinctShared(f: Filter) {
    forall i, j :: 0 <= i < j < |f.shared| ==> f.shared[i].mac != f.shared[j].mac
  }

  /** The count is net successful adds, and the switch has the entry, with the configured mask,
      exactly while it is positive. */
  ghost predicate SharedOkAt(w: World, k: nat)
    requires k < |w.filter.shared|
  {
    var e := w.filter.shared[k];
    && e.refCnt + OkCount(w.log, false, None, e.mac) == OkCount(w.log, true, None, e.mac)
    && (e.mac in w.ale.entries <==> e.refCnt > 0)
    && (e.refCnt > 0 ==> w.ale.entries[e.mac] == e.portMask)
  }

  /** Operations on another address leave a shared entry alone. */
  lemma SharedOther(w: World, op: Op, k: nat)
    requires |w.bridge.masks| == |w.bridge.table|
    requires k < |w.filter.shared| && SharedOkAt(w, k) && op.mac != w.filter.shared[k].mac
    ensures k < |Do(w, op).filter.shared| && SharedOkAt(Do(w, op), k)
  {
    assert Do(w, op).log[..|w.log|] == w.log;
    OtherMacAle(w, op, w.filter.shared[k].mac);
    assert Do(w, op).filter.shared[k] == w.filter.shared[k];
  }

  /** An operation on the address itself goes to its entry. */
  lemma SharedOwn(w: World, op: Op, k: nat)
    requires |w.bridge.masks| == |w.bridge.table|
    requires k < |w.filter.shared| && SharedOkAt(w, k) && op.mac == w.filter.shared[k].mac
    requires FindShared(w.filter.shared, op.mac, 0) == Some(k)
    ensures k < |Do(w, op).filter.shared| && SharedOkAt(Do(w, op), k)
  {
    assert Do(w, op).log[..|w.log|] == w.log;
  }

  lemma SharedStep(w: World, op: Op, k: nat)
    requires |w.bridge.masks| == |w.bridge.table| && DistinctShared(w.filter)
    requires k < |w.filter.shared| && SharedOkAt(w, k)
    ensures k < |Do(w, op).filter.shared| && SharedOkAt(Do(w, op), k)
  {
    if op.mac == w.filter.shared[k].mac {
      SharedOwn(w, op, k);
    } else {
      SharedOther(w, op, k);
    }
  }

  /** For distinct shared addresses initially absent from the switch, in every run with any
      driver failures. */
  lemma {:induction false} SharedCount(w: World, ops: seq<Op>, k: nat)
    requires Initial(w) && DistinctShared(w.filter) && k < |w.filter.shared|
    requires w.filter.shared[k].mac !in w.ale.entries
    ensures k < |Run(w, ops).filter.shared|
    ensures Run(w, ops).filter.shared[k].mac == w.filter.shared[k].mac
    ensures Run(w, ops).filter.shared[k].portMask == w.filter.shared[k].portMask
    ensures SharedOkAt(Run(w, ops), k)
  {
    InitialExcl(w);
    RunExcl(w, ops);
    if ops != [] {
      var init := ops[..|ops| - 1];
      RunExcl(w, init);
      SharedCount(w, init, k);
      SharedStep(Run(w, init), ops[|ops| - 1], k);
    }
  }

  // ----- when an operation succeeds -----

  predicate Reserved(f: Filter, mac: Mac, vlan: nat) {
    exists k :: 0 <= k < |f.rsvd| && f.rsvd[k].mac == mac && f.rsvd[k].vlan == vlan
  }

  /** Some entry in use is for the address. */
  predicate Used(f: Filter, mac: Mac) {
    exists i :: 0 <= i < |f.excl| && !f.excl[i].isFree && f.excl[i].mac == mac
  }

  /** The port has an entry in use for the address, with count `n`. */
  predicate Owns(f: Filter, port: VirtPort, mac: Mac, n: nat) {
    exists i :: 0 <= i < |f.excl| && f.excl[i] == Excl(mac, port, n, false)
  }

  ghost predicate OwnedBy(f: Filter, port: VirtPort, mac: Mac) { exists n :: Owns(f, port, mac, n) }

  predicate SlotFree(f: Filter) { exists i :: 0 <= i < |f.excl| && f.excl[i].isFree }

  lemma OwnerByLookup(f: Filter, port: VirtPort, mac: Mac, n: nat)
    requires ExclInv(f)
    ensures var i := OwnerEntry(f, mac);
            && (i.Some? <==> Used(f, mac))
            && (Owns(f, port, mac, n) <==> i.Some? && f.excl[i.value] == Excl(mac, port, n, false))
            && (i.Some? ==> Owns(f, f.excl[i.value].virtPort, mac, f.excl[i.value].refCnt))
  {
    if j :| 0 <= j < |f.excl| && !f.excl[j].isFree && f.excl[j].mac == mac {
      FindInUse(f, j);
    }
  }

  /** When an add of an exclusive address succeeds, and why it is refused otherwise. */
  lemma ExclusiveAddExactly(w: World, op: Op)
    requires |w.bridge.masks| == |w.bridge.table| && ExclInv(w.filter) && !IsShared(w.filter, op.mac)
    requires op.add
    ensures var f, io, status := w.filter, op.io, Perform(w, op).status;
            var first := !Used(f, op.mac) && !io.lookupErr && op.mac !in w.ale.entries && SlotFree(f);
            && (status == Sok <==>
                  && !Reserved(f, op.mac, op.vlan)
                  && (OwnedBy(f, op.port, op.mac) || (first && io.addOk && io.policerOk)))
            && (status == Ebadargs <==> Reserved(f, op.mac, op.vlan))
            && (status == Efail <==>
                  !Reserved(f, op.mac, op.vlan) && Used(f, op.mac) && !OwnedBy(f, op.port, op.mac))
            && (!Reserved(f, op.mac, op.vlan) && !Used(f, op.mac) ==>
                  && (status == Ebusy <==> !io.lookupErr && op.mac in w.ale.entries)
                  && (status == Ealloc <==> !io.lookupErr && op.mac !in w.ale.entries && !SlotFree(f))
                  && (status == Edriver <==> io.lookupErr || (first && !(io.addOk && io.policerOk))))
  {
    var i := OwnerEntry(w.filter, op.mac);
    OwnerByLookup(w.filter, op.port, op.mac, if i.Some? then w.filter.excl[i.value].refCnt else 0);
    forall n | Owns(w.filter, op.port, op.mac, n)
      ensures i.Some? && w.filter.excl[i.value].virtPort == op.port
    {
      OwnerByLookup(w.filter, op.port, op.mac, n);
    }
  }

  /** What a first add leaves: an entry of the port with count one; in the switch, the host port and
      the MAC port's bit, or the host port and the bits of the switch ports; and the classifier, on the
      ingress port for a MAC port and on any for a switch port. */
  lemma FirstAddLeaves(w: World, op: Op)
    requires |w.bridge.masks| == |w.bridge.table| && ExclInv(w.filter) && !IsShared(w.filter, op.mac)
    requires op.add && !Used(w.filter, op.mac) && Perform(w, op).status == Sok
    ensures var r := Perform(w, op);
            && Owns(r.filter, op.port, op.mac, 1)
            && op.mac in r.ale.entries
            && (op.port.MacPort? ==>
                  && (forall bit :: bit in r.ale.entries[op.mac] <==> bit == 0 || bit == op.port.macPort + 1)
                  && r.ale.policers == w.ale.policers + {(op.mac, Some(op.port.macPort + 1))})
            && (op.port.SwitchPort? ==>
                  && (forall bit :: bit in r.ale.entries[op.mac]
                        <==> bit == 0 || (bit > 0 && bit - 1 in w.filter.switchMask))
                  && r.ale.policers == w.ale.policers + {(op.mac, None)})
            && (forall mac :: mac != op.mac ==>
                  (mac in r.ale.entries <==> mac in w.ale.entries)
                  && (mac in r.ale.entries ==> r.ale.entries[mac] == w.ale.entries[mac]))
  {
    OwnMacEntry(w, op);
    OwnerByLookup(w.filter, op.port, op.mac, 1);
    OwnerByLookup(Perform(w, op).filter, op.port, op.mac, 1);
    ExclKeeps(w, op);
  }

  /** When a delete of an exclusive address succeeds, and why it is refused otherwise. */
  lemma ExclusiveDeleteExactly(w: World, op: Op)
    requires |w.bridge.masks| == |w.bridge.table| && ExclInv(w.filter) && !IsShared(w.filter, op.mac)
    requires !op.add
    ensures var f, status := w.filter, Perform(w, op).status;
            && (status == Sok <==>
                  && !Reserved(f, op.mac, op.vlan)
                  && OwnedBy(f, op.port, op.mac)
                  && (Owns(f, op.port, op.mac, 1) ==> op.io.removeOk))
            && (status == Ebadargs <==> Reserved(f, op.mac, op.vlan))
            && (status == Efail <==> !Reserved(f, op.mac, op.vlan) && !OwnedBy(f, op.port, op.mac))
            && (status == Edriver <==>
                  !Reserved(f, op.mac, op.vlan) && Owns(f, op.port, op.mac, 1) && !op.io.removeOk)
  {
    var i := OwnerEntry(w.filter, op.mac);
    OwnerByLookup(w.filter, op.port, op.mac, 1);
    OwnerByLookup(w.filter, op.port, op.mac, if i.Some? then w.filter.excl[i.value].refCnt else 0);
    forall n | Owns(w.filter, op.port, op.mac, n)
      ensures i.Some? && w.filter.excl[i.value] == Excl(op.mac, op.port, n, false)
    {
      OwnerByLookup(w.filter, op.port, op.mac, n);
    }
  }

  /** When an operation on a shared address succeeds, and why it is refused otherwise: an add if the
      address is in the switch already or the driver accepts it, a delete if others still hold the
      address or the driver accepts the removal. */
  lemma SharedOutcomeExactly(w: World, op: Op, k: nat)
    requires |w.bridge.masks| == |w.bridge.table|
    requires k < |w.filter.shared| && op.mac == w.filter.shared[k].mac
    requires forall j :: 0 <= j < k ==> w.filter.shared[j].mac != op.mac
    ensures var n, status, rsvd := w.filter.shared[k].refCnt, Perform(w, op).status,
                                   Reserved(w.filter, op.mac, op.vlan);
            && (status == Ebadargs <==> rsvd)
            && (op.add && !rsvd ==>
                  && (status == Sok <==> n > 0 || op.io.addOk)
                  && (status == Edriver <==> n == 0 && !op.io.addOk))
            && (!op.add && !rsvd ==>
                  && (status == Sok <==> n > 1 || (n == 1 && op.io.removeOk))
                  && (status == Efail <==> n == 0)
                  && (status == Edriver <==> n == 1 && !op.io.removeOk))
  {
    assert FindShared(w.filter.shared, op.mac, 0) == Some(k);
  }

  /** After as many successful deletes as adds of a shared address its count is zero and the switch
      does not have it. */
  lemma BalancedSharedGone(w: World, ops: seq<Op>, k: nat)
    requires Initial(w) && DistinctShared(w.filter) && k < |w.filter.shared|
    requires w.filter.shared[k].mac !in w.ale.entries
    ensures var r, mac := Run(w, ops), w.filter.shared[k].mac;
            && k < |r.filter.shared|
            && (OkCount(r.log, true, None, mac) == OkCount(r.log, false, None, mac)
                <==> r.filter.shared[k].refCnt == 0)
            && (r.filter.shared[k].refCnt == 0 <==> mac !in r.ale.entries)
  {
    SharedCount(w, ops, k);
  }

  // ----- initialisation -----

  /** Initialisation succeeds exactly when both tables fit and hold multicast addresses only. It then
      has the configured addresses, with counts zero, and the switch ports; a bad shared table leaves
      no address at all, a bad reserved table no reserved one. Every exclusive slot is free. */
  lemma InitExactly(cfg: Config)
    ensures var (f, ok) := InitFilter(cfg);
            var sharedFits := |cfg.shared| <= SHARED_LEN && forall e :: e in cfg.shared ==> IsMcast(e.mac);
            var rsvdFits := |cfg.rsvd| <= RSVD_LEN && forall e :: e in cfg.rsvd ==> IsMcast(e.mac);
            && (ok <==> sharedFits && rsvdFits)
            && f.rsvd == (if ok then cfg.rsvd else [])
            && |f.shared| == (if sharedFits then |cfg.shared| else 0)
            && (forall k :: 0 <= k < |f.shared| ==> f.shared[k] == cfg.shared[k].(refCnt := 0))
            && f.switchMask == (if ok then cfg.switchMask else {})
            && |f.excl| == EXCL_LEN
            && (forall i :: 0 <= i < EXCL_LEN ==> f.excl[i].isFree && f.excl[i].refCnt == 0)
  {
    assert SharedOk(cfg.shared) <==>
             |cfg.shared| <= SHARED_LEN && forall e :: e in cfg.shared ==> IsMcast(e.mac);
    assert RsvdOk(cfg.rsvd) <==> |cfg.rsvd| <= RSVD_LEN && forall e :: e in cfg.rsvd ==> IsMcast(e.mac);
  }
}
