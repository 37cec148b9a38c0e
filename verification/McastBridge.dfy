/** Shared addresses and the bridge: the callbacks keep one port mask and one forwarding entry
    per address in step with the reference count, as long as every core alternates. */
module McastBridge {
  import opened Common
  import opened McastSpec
  import opened McastRuns

  /** The cores whose latest successful operation on the address was an add. */
  function Holders(log: seq<Event>, mac: Mac): set<nat> {
    if log == [] then {}
    else
      var e, before := log[|log| - 1], Holders(log[..|log| - 1], mac);
      if e.mac != mac || e.status != Sok then before
      else if e.add then before + {e.core} else before - {e.core}
  }

  /** Every core adds the address only when it does not hold it, and deletes it only when it does. */
  ghost predicate Alternates(log: seq<Event>, mac: Mac) {
    forall k :: 0 <= k < |log| && log[k].mac == mac && log[k].status == Sok ==>
      (log[k].add <==> log[k].core !in Holders(log[..k], mac))
  }

  /** The bridge table lists the shared addresses, in order and without repetition. */
  ghost predicate Linked(w: World) {
    && |w.bridge.masks| == |w.bridge.table| == |w.filter.shared|
    && DistinctShared(w.filter)
    && forall k :: 0 <= k < |w.filter.shared| ==> w.bridge.table[k] == w.filter.shared[k].mac
  }

  ghost predicate Injective(m: map<nat, nat>, cores: set<nat>) {
    forall c, d :: c in cores && d in cores && PortOf(m, c) == PortOf(m, d) ==> c == d
  }

  function Ports(m: map<nat, nat>, cores: set<nat>): Mask { set c | c in cores :: PortOf(m, c) }

  /** Count and mask of shared address `k` both say who holds it. */
  ghost predicate InStep(w: World, k: nat)
    requires Linked(w) && k < |w.filter.shared|
  {
    var held := Holders(w.log, w.filter.shared[k].mac);
    w.filter.shared[k].refCnt == |held| && w.bridge.masks[k] == Ports(w.bridge.portMap, held)
  }

  lemma FindLinked(w: World, k: nat)
    requires Linked(w) && k < |w.filter.shared|
    ensures FindShared(w.filter.shared, w.filter.shared[k].mac, 0) == Some(k)
    ensures FindMac(w.bridge.table, w.filter.shared[k].mac, 0) == Some(k)
  {
  }

  lemma LinkedKept(w: World, op: Op)
    requires Linked(w)
    ensures Linked(Do(w, op))
    ensures Do(w, op).bridge.portMap == w.bridge.portMap
    ensures |Do(w, op).filter.shared| == |w.filter.shared|
    ensures forall k :: 0 <= k < |w.filter.shared| ==> Do(w, op).filter.shared[k].mac == w.filter.shared[k].mac
  {
    PerformSameShared(w, op);
  }

  /** A callback touches the mask and the forwarding entry of its own address only. */
  lemma CallbackElsewhere(b: Bridge, k: nat, mac: Mac, core: nat, io: Io)
    requires k < |b.table| == |b.masks| && b.table[k] != mac
    ensures forall r :: r == BridgeAdd(b, mac, core, io) || r == BridgeDel(b, mac, core, io) ==>
              && |r.masks| == |b.masks| && r.masks[k] == b.masks[k]
              && (b.table[k] in r.fdb <==> b.table[k] in b.fdb)
              && (b.table[k] in r.fdb ==> r.fdb[b.table[k]] == b.fdb[b.table[k]])
  {
  }

  lemma OtherMacBridge(w: World, op: Op, k: nat)
    requires Linked(w) && k < |w.filter.shared| && op.mac != w.filter.shared[k].mac
    ensures var b, mac := Do(w, op).bridge, w.filter.shared[k].mac;
            && |b.masks| == |w.bridge.masks| && b.masks[k] == w.bridge.masks[k]
            && (mac in b.fdb <==> mac in w.bridge.fdb)
            && (mac in b.fdb ==> b.fdb[mac] == w.bridge.fdb[mac])
            && |Do(w, op).filter.shared| == |w.filter.shared|
            && Do(w, op).filter.shared[k] == w.filter.shared[k]
  {
    CallbackElsewhere(w.bridge, k, op.mac, op.core, op.io);
    var b := Do(w, op).bridge;
    assert b == w.bridge || b == BridgeAdd(w.bridge, op.mac, op.core, op.io)
           || b == BridgeDel(w.bridge, op.mac, op.core, op.io);
  }

  /** Images of sets of cores under an injective port map. */
  lemma PortsAdd(m: map<nat, nat>, held: set<nat>, c: nat)
    ensures Ports(m, held + {c}) == Ports(m, held) + {PortOf(m, c)}
  {
  }

  lemma PortsRemove(m: map<nat, nat>, cores: set<nat>, held: set<nat>, c: nat)
    requires Injective(m, cores) && held <= cores && c in cores
    ensures Ports(m, held - {c}) == Ports(m, held) - {PortOf(m, c)}
  {
    forall p | p in Ports(m, held) - {PortOf(m, c)}
      ensures p in Ports(m, held - {c})
    {
      var d :| d in held && PortOf(m, d) == p;
      assert d in held - {c};
    }
  }

  lemma {:induction false} PortsSize(m: map<nat, nat>, cores: set<nat>, held: set<nat>)
    requires Injective(m, cores) && held <= cores
    ensures |Ports(m, held)| == |held|
  {
    if held == {} {
      assert Ports(m, held) == {};
    } else {
      var c :| c in held;
      PortsSize(m, cores, held - {c});
      PortsRemove(m, cores, held, c);
      assert PortOf(m, c) in Ports(m, held);
    }
  }

  /** What a successful operation on shared address `k` does to its count and mask. */
  lemma SharedEffect(w: World, op: Op, k: nat)
    requires Linked(w) && k < |w.filter.shared| && op.mac == w.filter.shared[k].mac
    requires Perform(w, op).status == Sok
    ensures var r, port := Perform(w, op), PortOf(w.bridge.portMap, op.core);
            && |r.filter.shared| == |w.filter.shared| && |r.bridge.masks| == |w.bridge.masks|
            && r.filter.shared[k].refCnt == w.filter.shared[k].refCnt + (if op.add then 1 else -1)
            && r.bridge.masks[k] == (if op.add then w.bridge.masks[k] + {port} else w.bridge.masks[k] - {port})
  {
    FindLinked(w, k);
  }

  /** If the count of a shared address is the number of bits of its mask, a successful operation
      keeps it so exactly when the core's bit is clear before an add and set before a delete. */
  lemma CountStepExactly(w: World, op: Op, k: nat)
    requires Linked(w) && k < |w.filter.shared| && op.mac == w.filter.shared[k].mac
    requires w.filter.shared[k].refCnt == |w.bridge.masks[k]|
    ensures Linked(Do(w, op))
    ensures var r, mask := Do(w, op), w.bridge.masks[k];
            Perform(w, op).status == Sok ==>
              (r.filter.shared[k].refCnt == |r.bridge.masks[k]|
               <==> (op.add <==> PortOf(w.bridge.portMap, op.core) !in mask))
  {
    LinkedKept(w, op);
    if Perform(w, op).status == Sok {
      SharedEffect(w, op, k);
      HoldersSize(w.bridge.masks[k], op.add, PortOf(w.bridge.portMap, op.core));
    }
  }

  function HoldersAfter(held: set<nat>, add: bool, core: nat): set<nat> {
    if add then held + {core} else held - {core}
  }

  lemma HoldersStep(w: World, op: Op)
    requires |w.bridge.masks| == |w.bridge.table|
    ensures Holders(Do(w, op).log, op.mac)
         == if Perform(w, op).status == Sok then HoldersAfter(Holders(w.log, op.mac), op.add, op.core)
            else Holders(w.log, op.mac)
    ensures forall mac :: mac != op.mac ==> Holders(Do(w, op).log, mac) == Holders(w.log, mac)
  {
    assert Do(w, op).log[..|w.log|] == w.log;
  }

  lemma HoldersSize(held: set<nat>, add: bool, core: nat)
    ensures |HoldersAfter(held, add, core)| == |held| + (if add then 1 else -1)
       <==> (add <==> core !in held)
  {
    if core in held {
      assert held + {core} == held;
    } else {
      assert held - {core} == held;
    }
  }

  /** A successful operation on the address keeps count and mask in step with the holders exactly
      when the core alternates: it adds what it does not hold, or deletes what it holds. */
  lemma InStepIffAlternating(w: World, op: Op, k: nat, cores: set<nat>)
    requires StepSetting(w, k, cores) && InStep(w, k)
    requires op.mac == w.filter.shared[k].mac && op.core in cores
    ensures Linked(Do(w, op))
    ensures Perform(w, op).status == Sok ==>
              (InStep(Do(w, op), k) <==> (op.add <==> op.core !in Holders(w.log, op.mac)))
  {
    var held := Holders(w.log, op.mac);
    LinkedKept(w, op);
    if Perform(w, op).status == Sok {
      SharedEffect(w, op, k);
      HoldersStep(w, op);
      HoldersSize(held, op.add, op.core);
      PortsAdd(w.bridge.portMap, held, op.core);
      PortsRemove(w.bridge.portMap, cores, held, op.core);
    }
  }

  /** A failed operation, or one on another address, changes none of it. */
  lemma InStepOther(w: World, op: Op, k: nat)
    requires Linked(w) && k < |w.filter.shared| && InStep(w, k)
    requires op.mac != w.filter.shared[k].mac || Perform(w, op).status != Sok
    ensures Linked(Do(w, op)) && InStep(Do(w, op), k)
  {
    LinkedKept(w, op);
    HoldersStep(w, op);
    if op.mac != w.filter.shared[k].mac {
      OtherMacBridge(w, op, k);
    } else {
      FindLinked(w, k);
    }
  }

  /** A prefix of an alternating log alternates. */
  lemma AlternatesPrefix(w: World, op: Op, mac: Mac)
    requires |w.bridge.masks| == |w.bridge.table| && Alternates(Do(w, op).log, mac)
    ensures Alternates(w.log, mac)
    ensures op.mac == mac && Perform(w, op).status == Sok ==>
              (op.add <==> op.core !in Holders(w.log, mac))
  {
    var log := Do(w, op).log;
    assert log[..|w.log|] == w.log;
    forall j | 0 <= j < |w.log| && w.log[j].mac == mac && w.log[j].status == Sok
      ensures w.log[j].add <==> w.log[j].core !in Holders(w.log[..j], mac)
    {
      assert log[j] == w.log[j] && log[..j] == w.log[..j];
    }
    assert log[|w.log|].core == op.core;
  }

  /** The setting of the step lemmas: the holders are among cores with distinct ports. */
  ghost predicate StepSetting(w: World, k: nat, cores: set<nat>) {
    && Linked(w) && k < |w.filter.shared|
    && Injective(w.bridge.portMap, cores)
    && Holders(w.log, w.filter.shared[k].mac) <= cores
  }

  lemma InStepStep(w: World, op: Op, k: nat, cores: set<nat>)
    requires StepSetting(w, k, cores) && InStep(w, k)
    requires op.mac == w.filter.shared[k].mac ==> op.core in cores
    requires Alternates(Do(w, op).log, w.filter.shared[k].mac)
    ensures StepSetting(Do(w, op), k, cores) && InStep(Do(w, op), k)
    ensures Do(w, op).filter.shared[k].mac == w.filter.shared[k].mac
  {
    LinkedKept(w, op);
    AlternatesPrefix(w, op, w.filter.shared[k].mac);
    HoldersStep(w, op);
    if op.mac == w.filter.shared[k].mac && Perform(w, op).status == Sok {
      InStepIffAlternating(w, op, k, cores);
    } else {
      InStepOther(w, op, k);
    }
  }

  lemma InStepStart(w: World, k: nat, cores: set<nat>)
    requires Initial(w) && Linked(w) && k < |w.filter.shared| && w.bridge.masks[k] == {}
    requires Injective(w.bridge.portMap, cores)
    ensures StepSetting(w, k, cores) && InStep(w, k)
  {
    assert Ports(w.bridge.portMap, {}) == {};
    assert w.filter.shared[k].refCnt == 0;
  }

  /** The cores that use the address in the run. */
  ghost predicate UsedBy(ops: seq<Op>, mac: Mac, cores: set<nat>) {
    forall i :: 0 <= i < |ops| && ops[i].mac == mac ==> ops[i].core in cores
  }

  lemma {:induction false} InStepRun(w: World, ops: seq<Op>, k: nat, cores: set<nat>)
    requires Initial(w) && Linked(w) && k < |w.filter.shared| && w.bridge.masks[k] == {}
    requires Injective(w.bridge.portMap, cores) && UsedBy(ops, w.filter.shared[k].mac, cores)
    requires Alternates(Run(w, ops).log, w.filter.shared[k].mac)
    ensures var r := Run(w, ops);
            && StepSetting(r, k, cores) && InStep(r, k)
            && r.filter.shared[k].mac == w.filter.shared[k].mac
            && r.bridge.portMap == w.bridge.portMap
  {
    if ops == [] {
      InStepStart(w, k, cores);
    } else {
      var init, op := ops[..|ops| - 1], ops[|ops| - 1];
      assert op.mac == w.filter.shared[k].mac ==> ops[|ops| - 1].core in cores;
      AlternatesPrefix(Run(w, init), op, w.filter.shared[k].mac);
      InStepRun(w, init, k, cores);
      InStepStep(Run(w, init), op, k, cores);
      LinkedKept(Run(w, init), op);
    }
  }

  lemma InStepCounts(r: World, k: nat, cores: set<nat>)
    requires StepSetting(r, k, cores) && InStep(r, k)
    ensures r.filter.shared[k].refCnt == |r.bridge.masks[k]|
  {
    PortsSize(r.bridge.portMap, cores, Holders(r.log, r.filter.shared[k].mac));
  }

  /** In every run where each core alternates successful adds and deletes of a shared address and the
      core-to-port map is injective on the cores that use it: the reference count is the number of
      bits of the bridge port mask, which are the ports of the cores that hold the address. What
      other addresses do, and whether the bridge takes its forwarding entries, does not matter. */
  lemma CountIsMaskBits(w: World, ops: seq<Op>, k: nat, cores: set<nat>)
    requires Initial(w) && Linked(w) && k < |w.filter.shared| && w.bridge.masks[k] == {}
    requires Injective(w.bridge.portMap, cores) && UsedBy(ops, w.filter.shared[k].mac, cores)
    requires Alternates(Run(w, ops).log, w.filter.shared[k].mac)
    ensures var r := Run(w, ops);
            && k < |r.filter.shared| && k < |r.bridge.masks|
            && r.filter.shared[k].refCnt == |r.bridge.masks[k]|
            && r.bridge.masks[k] == Ports(w.bridge.portMap, Holders(r.log, w.filter.shared[k].mac))
  {
    InStepRun(w, ops, k, cores);
    InStepCounts(Run(w, ops), k, cores);
  }

  // ----- the forwarding entry -----

  /** Whether the bridge took the forwarding entry at the latest successful operation on the
      address. */
  function LastFdbOk(log: seq<Event>, mac: Mac): bool {
    log == [] ||
    var e := log[|log| - 1];
    if e.mac == mac && e.status == Sok then e.fdbOk else LastFdbOk(log[..|log| - 1], mac)
  }

  /** The forwarding entry is there, with the mask, exactly when the mask is not empty and the bridge
      took it last time. */
  ghost predicate Forwarding(w: World, k: nat)
    requires Linked(w) && k < |w.filter.shared|
  {
    var mac, mask := w.filter.shared[k].mac, w.bridge.masks[k];
    && (mac in w.bridge.fdb <==> mask != {} && LastFdbOk(w.log, mac))
    && (mac in w.bridge.fdb ==> w.bridge.fdb[mac] == mask)
  }

  lemma ForwardingOwn(w: World, op: Op, k: nat)
    requires Linked(w) && k < |w.filter.shared| && Forwarding(w, k)
    requires op.mac == w.filter.shared[k].mac
    ensures Linked(Do(w, op)) && Forwarding(Do(w, op), k)
  {
    LinkedKept(w, op);
    FindLinked(w, k);
    assert Do(w, op).log[..|w.log|] == w.log;
  }

  lemma ForwardingOther(w: World, op: Op, k: nat)
    requires Linked(w) && k < |w.filter.shared| && Forwarding(w, k)
    requires op.mac != w.filter.shared[k].mac
    ensures Linked(Do(w, op)) && Forwarding(Do(w, op), k)
  {
    LinkedKept(w, op);
    OtherMacBridge(w, op, k);
    assert Do(w, op).log[..|w.log|] == w.log;
  }

  /** In every run, alternating or not: the bridge forwards a shared address, with its current mask,
      exactly when the mask is not empty and the bridge took the entry at the latest successful
      operation on the address. */
  lemma {:induction false} ForwardingExactly(w: World, ops: seq<Op>, k: nat)
    requires Initial(w) && Linked(w) && k < |w.filter.shared|
    requires w.bridge.masks[k] == {} && w.filter.shared[k].mac !in w.bridge.fdb
    ensures var r := Run(w, ops);
            && Linked(r) && k < |r.filter.shared| && r.filter.shared[k].mac == w.filter.shared[k].mac
            && Forwarding(r, k)
  {
    if ops != [] {
      var init, op := ops[..|ops| - 1], ops[|ops| - 1];
      ForwardingExactly(w, init, k);
      LinkedKept(Run(w, init), op);
      if op.mac == w.filter.shared[k].mac {
        ForwardingOwn(Run(w, init), op, k);
      } else {
        ForwardingOther(Run(w, init), op, k);
      }
    }
  }

  /** In the alternating runs of `CountIsMaskBits`: the bridge forwards the address exactly when the
      switch has it, if and only if nobody holds it or the bridge took the entry at the latest
      successful operation on it. */
  lemma BridgeMatchesSwitchExactly(w: World, ops: seq<Op>, k: nat, cores: set<nat>)
    requires Initial(w) && Linked(w) && k < |w.filter.shared|
    requires w.bridge.masks[k] == {} && w.filter.shared[k].mac !in w.bridge.fdb
    requires w.filter.shared[k].mac !in w.ale.entries
    requires Injective(w.bridge.portMap, cores) && UsedBy(ops, w.filter.shared[k].mac, cores)
    requires Alternates(Run(w, ops).log, w.filter.shared[k].mac)
    ensures var r, mac := Run(w, ops), w.filter.shared[k].mac;
            && k < |r.bridge.masks|
            && ((mac in r.bridge.fdb <==> mac in r.ale.entries)
                <==> r.bridge.masks[k] == {} || LastFdbOk(r.log, mac))
            && (mac in r.bridge.fdb ==> r.bridge.fdb[mac] == r.bridge.masks[k])
  {
    CountIsMaskBits(w, ops, k, cores);
    ForwardingExactly(w, ops, k);
    SharedCount(w, ops, k);
  }

  // ----- a core that does not alternate -----

  /** One shared address, nothing added yet. */
  function OneShared(mac: Mac): World {
    World(InitFilter(Config([Shared(mac, {}, {}, 0)], [], {})).0, Ale(map[], {}),
          Bridge([mac], [{}], map[], map[]), [])
  }

  lemma OneSharedStart(mac: Mac)
    requires IsMcast(mac)
    ensures var w := OneShared(mac);
            && Initial(w) && Linked(w) && |w.filter.shared| == 1
            && w.filter.shared[0] == Shared(mac, {}, {}, 0)
            && w.filter.rsvd == []
  {
    var w := OneShared(mac);
    assert w.filter == InitFilter(Config([Shared(mac, {}, {}, 0)], [], {})).0;
  }

  /** A core that adds the address twice and deletes it once: after the adds the count is 2 and the
      mask has one bit; after the delete the switch still has the address, the bridge does not. */
  lemma DoubleAdd(mac: Mac, port: VirtPort, core: nat)
    requires IsMcast(mac)
    ensures var w := OneShared(mac);
            var add := Op(true, port, mac, 0, core, ALL_OK);
            var del := add.(add := false);
            var r := Do(Do(w, add), add);
            var t := Do(r, del);
            && Initial(w) && Linked(w)
            && Run(w, [add, add]) == r && Run(w, [add, add, del]) == t
            && |r.filter.shared| == |r.bridge.masks| == 1
            && r.filter.shared[0].refCnt == 2 && |r.bridge.masks[0]| == 1
            && !Alternates(r.log, mac)
            && mac in t.ale.entries && mac !in t.bridge.fdb
  {
    OneSharedStart(mac);
    var w := OneShared(mac);
    var add := Op(true, port, mac, 0, core, ALL_OK);
    var del := add.(add := false);
    RunOfThree(w, add, add, del);
    FindLinked(w, 0);
    LinkedKept(w, add);
    var v := Do(w, add);
    FindLinked(v, 0);
    LinkedKept(v, add);
    var r := Do(v, add);
    FindLinked(r, 0);
    assert v.bridge.masks[0] == {PortOf(map[], core)};
    assert r.bridge.masks[0] == {PortOf(map[], core)};
    assert r.log[..1] == v.log;
    HoldersStep(w, add);
    assert core in Holders(r.log[..1], mac);
    assert r.log[1].add && r.log[1].core == core;
    assert Do(r, del).bridge.masks[0] == {};
  }

  /** One add whose forwarding entry the bridge refuses: the run alternates and the switch has the
      address, but the bridge does not forward it. */
  lemma RefusedForwarding(mac: Mac, port: VirtPort, core: nat)
    requires IsMcast(mac)
    ensures var w, add := OneShared(mac), Op(true, port, mac, 0, core, ALL_OK.(fdbOk := false));
            var r := Run(w, [add]);
            && Initial(w) && Linked(w) && UsedBy([add], mac, {core}) && Injective(w.bridge.portMap, {core})
            && Alternates(r.log, mac)
            && |r.bridge.masks| == 1 && r.bridge.masks[0] != {} && !LastFdbOk(r.log, mac)
            && mac in r.ale.entries && mac !in r.bridge.fdb
  {
    OneSharedStart(mac);
    var w, add := OneShared(mac), Op(true, port, mac, 0, core, ALL_OK.(fdbOk := false));
    FindLinked(w, 0);
    assert [add][..0] == [];
    assert Run(w, []) == w;
    var r := Do(w, add);
    assert Run(w, [add]) == r;
    assert r.log == [Event(true, port, mac, core, Sok, false)];
    assert r.log[..0] == [];
    assert PortOf(map[], core) in r.bridge.masks[0];
  }

  lemma RunSnoc(w: World, init: seq<Op>, op: Op, ops: seq<Op>)
    requires |w.bridge.masks| == |w.bridge.table| && ops == init + [op]
    ensures Run(w, ops) == Do(Run(w, init), op)
  {
    assert ops[..|ops| - 1] == init;
  }

  lemma RunOfTwo(w: World, a: Op, b: Op)
    requires |w.bridge.masks| == |w.bridge.table|
    ensures Run(w, [a, b]) == Do(Do(w, a), b)
  {
    RunSnoc(w, [], a, [a]);
    RunSnoc(w, [a], b, [a, b]);
  }

  lemma RunOfThree(w: World, a: Op, b: Op, c: Op)
    requires |w.bridge.masks| == |w.bridge.table|
    ensures Run(w, [a, b]) == Do(Do(w, a), b)
    ensures Run(w, [a, b, c]) == Do(Do(Do(w, a), b), c)
  {
    RunOfTwo(w, a, b);
    RunSnoc(w, [a, b], c, [a, b, c]);
  }

  // ----- deletes undo adds -----

  /** An add of a shared address by a core, then a delete by it that the driver accepts: both succeed
      or the add changed nothing; the count and the switch are as before, and the mask is exactly if
      the core's port was not in it. */
  lemma SharedDeleteUndoesAdd(w: World, op: Op, undo: Op, k: nat)
    requires Linked(w) && k < |w.filter.shared| && SharedOkAt(w, k) && op.mac == w.filter.shared[k].mac
    requires op.add && undo == op.(add := false, io := undo.io) && undo.io.removeOk
    requires Perform(w, op).status == Sok
    ensures var r := Perform(Do(w, op), undo);
            && r.status == Sok
            && r.filter == w.filter
            && r.ale.entries == w.ale.entries && r.ale.policers == w.ale.policers
            && |r.bridge.masks| == |w.bridge.masks|
            && (r.bridge.masks == w.bridge.masks
                <==> PortOf(w.bridge.portMap, op.core) !in w.bridge.masks[k])
  {
    var v, port := Do(w, op), PortOf(w.bridge.portMap, op.core);
    LinkedKept(w, op);
    FindLinked(w, k);
    FindLinked(v, k);
    var r := Perform(v, undo);
    assert r.filter.shared == w.filter.shared;
    assert r.ale.entries == w.ale.entries;
    assert r.bridge.masks == w.bridge.masks[k := w.bridge.masks[k] + {port} - {port}];
    assert port !in w.bridge.masks[k] ==> w.bridge.masks[k] + {port} - {port} == w.bridge.masks[k];
    assert r.bridge.masks[k] == w.bridge.masks[k] + {port} - {port};
  }

  /** After as many successful deletes as adds of a shared address, in any run: neither the switch nor,
      if its mask is empty, the bridge has the address. In an alternating run the mask is empty. */
  lemma BalancedGone(w: World, ops: seq<Op>, k: nat, cores: set<nat>)
    requires Initial(w) && Linked(w) && k < |w.filter.shared|
    requires w.bridge.masks[k] == {} && w.filter.shared[k].mac !in w.bridge.fdb
    requires w.filter.shared[k].mac !in w.ale.entries
    requires var r, mac := Run(w, ops), w.filter.shared[k].mac;
             OkCount(r.log, true, None, mac) == OkCount(r.log, false, None, mac)
    ensures var r, mac := Run(w, ops), w.filter.shared[k].mac;
            && mac !in r.ale.entries
            && k < |r.bridge.masks|
            && (mac in r.bridge.fdb <==> r.bridge.masks[k] != {} && LastFdbOk(r.log, mac))
            && (Injective(w.bridge.portMap, cores) && UsedBy(ops, mac, cores) && Alternates(r.log, mac) ==>
                  r.bridge.masks[k] == {} && mac !in r.bridge.fdb)
  {
    BalancedSharedGone(w, ops, k);
    ForwardingExactly(w, ops, k);
    if Injective(w.bridge.portMap, cores) && UsedBy(ops, w.filter.shared[k].mac, cores)
       && Alternates(Run(w, ops).log, w.filter.shared[k].mac) {
      CountIsMaskBits(w, ops, k, cores);
    }
  }

  /** A core whose port is configured has that port's bit, any other core bit zero. */
  lemma PortOfCore(m: map<nat, nat>, core: nat)
    ensures forall port :: port in Ports(m, {core}) <==> (if core in m then port == m[core] else port == 0)
  {
  }
}
