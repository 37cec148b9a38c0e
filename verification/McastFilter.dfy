/** The multicast filter object, the switch it drives and the bridge callbacks, updated in
    place; every operation is proved to do what module McastSpec says. */
module McastFilter {
  import opened Common
  import opened McastSpec
  import opened McastRuns

  /** The switch's address table and classifiers behind the driver calls. A call that the
      driver refuses changes nothing. */
  class Switch {
    var entries: map<Mac, Mask>
    var policers: set<(Mac, Option<nat>)>

    constructor (e: map<Mac, Mask>, p: set<(Mac, Option<nat>)>)
      ensures entries == e && policers == p
    {
      entries, policers := e, p;
    }

    ghost function State(): Ale
      reads this
    {
      Ale(entries, policers)
    }

    method AddMcast(mac: Mac, mask: Mask, ok: bool) returns (status: Status)
      modifies this`entries
      ensures status == if ok then Sok else Edriver
      ensures entries == if ok then old(entries)[mac := mask] else old(entries)
    {
      if ok { entries := entries[mac := mask]; }
      status := if ok then Sok else Edriver;
    }

    method RemoveAddr(mac: Mac, ok: bool) returns (status: Status)
      modifies this`entries
      ensures status == if ok then Sok else Edriver
      ensures entries == if ok then old(entries) - {mac} else old(entries)
    {
      if ok { entries := entries - {mac}; }
      status := if ok then Sok else Edriver;
    }

    method SetPolicer(key: (Mac, Option<nat>), ok: bool) returns (status: Status)
      modifies this`policers
      ensures status == if ok then Sok else Edriver
      ensures policers == if ok then old(policers) + {key} else old(policers)
    {
      if ok { policers := policers + {key}; }
      status := if ok then Sok else Edriver;
    }

    /** Deletes the classifier together with the address entry it names. */
    method DelPolicerAll(key: (Mac, Option<nat>), ok: bool) returns (status: Status)
      modifies this
      ensures status == if ok then Sok else Edriver
      ensures policers == if ok then old(policers) - {key} else old(policers)
      ensures entries == if ok then old(entries) - {key.0} else old(entries)
    {
      if ok {
        policers := policers - {key};
        entries := entries - {key.0};
      }
      status := if ok then Sok else Edriver;
    }
  }

  /** The application's bridge bookkeeping. */
  class BridgeApp {
    const table: seq<Mac>
    const portMap: map<nat, nat>
    const masks: array<Mask>
    var fdb: map<Mac, Mask>

    ghost predicate Valid()
      reads this
    {
      masks.Length == |table|
    }

    ghost function State(): (b: Bridge)
      requires Valid()
      reads this, masks
      ensures |b.masks| == |b.table|
    {
      Bridge(table, masks[..], fdb, portMap)
    }

    constructor (t: seq<Mac>, m: map<nat, nat>)
      ensures Valid() && fresh(masks) && State() == Bridge(t, seq(|t|, _ => {}), map[], m)
    {
      table, portMap, fdb := t, m, map[];
      masks := new Mask[|t|](_ => {});
    }

    method FdbRefresh(mac: Mac, mask: Mask, ok: bool)
      modifies this`fdb
      ensures fdb == Refresh(old(fdb), mac, mask, ok)
    {
      fdb := fdb - {mac};
      if ok { fdb := fdb[mac := mask]; }
    }

    /** Callback after a successful shared add. */
    method FilterAddMacSharedCb(mac: Mac, core: nat, io: Io)
      requires Valid()
      modifies this`fdb, masks
      ensures Valid() && State() == BridgeAdd(old(State()), mac, core, io)
    {
      var idx := 0;
      while idx < |table|
        invariant 0 <= idx <= |table|
        invariant FindMac(table, mac, 0) == FindMac(table, mac, idx)
        invariant fdb == old(fdb) && masks[..] == old(masks[..])
      {
        if mac == table[idx] {
          masks[idx] := masks[idx] + {PortOf(portMap, core)};
          FdbRefresh(mac, masks[idx], io.fdbOk);
          assert masks[..] == old(masks[..])[idx := masks[idx]];
          return;
        }
        idx := idx + 1;
      }
    }

    /** Callback after a successful shared delete: an empty mask leaves no forwarding entry. */
    method FilterDelMacSharedCb(mac: Mac, core: nat, io: Io)
      requires Valid()
      modifies this`fdb, masks
      ensures Valid() && State() == BridgeDel(old(State()), mac, core, io)
    {
      var idx := 0;
      while idx < |table|
        invariant 0 <= idx <= |table|
        invariant FindMac(table, mac, 0) == FindMac(table, mac, idx)
        invariant fdb == old(fdb) && masks[..] == old(masks[..])
      {
        if mac == table[idx] {
          masks[idx] := masks[idx] - {PortOf(portMap, core)};
          if masks[idx] != {} {
            FdbRefresh(mac, masks[idx], io.fdbOk);
          } else {
            fdb := fdb - {mac};
          }
          assert masks[..] == old(masks[..])[idx := masks[idx]];
          return;
        }
        idx := idx + 1;
      }
    }
  }

  /** The filter's tables. */
  class McastObj {
    const rsvdTable: array<Rsvd>
    var rsvdLen: nat
    const sharedTable: array<Shared>
    var sharedLen: nat
    const exclTable: array<Excl>
    var switchMask: Mask
    const hw: Switch
    const bridge: BridgeApp

    ghost predicate Shape()
      reads this, bridge
    {
      && rsvdTable.Length == RSVD_LEN && rsvdLen <= RSVD_LEN
      && sharedTable.Length == SHARED_LEN && sharedLen <= SHARED_LEN
      && exclTable.Length == EXCL_LEN
      && bridge.Valid()
    }

    ghost function Tables(): Filter
      requires Shape()
      reads this, bridge, rsvdTable, sharedTable, exclTable
    {
      Filter(rsvdTable[..rsvdLen], sharedTable[..sharedLen], exclTable[..], switchMask)
    }

    /** Filter, switch and bridge together, with the status of the operation just done. */
    ghost function With(status: Status): Result
      requires Shape()
      reads this, rsvdTable, sharedTable, exclTable, hw, bridge, bridge.masks
    {
      Result(Tables(), hw.State(), bridge.State(), status)
    }

    /** The tables have their sizes, and at most one entry in use per address, none of them for a
        shared address, free exactly at count zero. */
    ghost predicate Valid()
      reads this, bridge, rsvdTable, sharedTable, exclTable
    {
      Shape() && ExclInv(Tables())
    }

    constructor (h: Switch, b: BridgeApp)
      requires b.Valid()
      ensures Shape() && hw == h && bridge == b
      ensures fresh(rsvdTable) && fresh(sharedTable) && fresh(exclTable)
    {
      hw, bridge := h, b;
      rsvdLen, sharedLen, switchMask := 0, 0, {};
      rsvdTable := new Rsvd[RSVD_LEN](_ => Rsvd(0, 0, {}));
      sharedTable := new Shared[SHARED_LEN](_ => Shared(0, {}, {}, 0));
      exclTable := new Excl[EXCL_LEN](_ => FREE_EXCL);
    }

    /** Clears the tables, whatever they held, and loads the configuration; a table with too many or
        non-multicast addresses is rejected. */
    method Init(cfg: Config) returns (ok: bool)
      requires Shape()
      modifies this`rsvdLen, this`sharedLen, this`switchMask, rsvdTable, sharedTable, exclTable
      ensures Valid()
      ensures (Tables(), ok) == InitFilter(cfg)
    {
      rsvdLen, sharedLen, switchMask := 0, 0, {};
      ok := LoadShared(cfg.shared);
      if ok {
        ok := LoadRsvd(cfg.rsvd);
      }
      if ok {
        switchMask := cfg.switchMask;
      }
      var i := 0;
      while i < EXCL_LEN
        invariant 0 <= i <= EXCL_LEN
        invariant forall k :: 0 <= k < i ==> exclTable[k] == FREE_EXCL
        modifies exclTable
      {
        exclTable[i] := FREE_EXCL;
        i := i + 1;
      }
      assert Tables() == InitFilter(cfg).0.(shared := Tables().shared, rsvd := Tables().rsvd);
      assert Tables().shared == InitFilter(cfg).0.shared && Tables().rsvd == InitFilter(cfg).0.rsvd;
    }

    method LoadShared(t: seq<Shared>) returns (ok: bool)
      requires Shape() && sharedLen == 0
      modifies this`sharedLen, sharedTable
      ensures Shape()
      ensures ok <==> SharedOk(t)
      ensures sharedTable[..sharedLen] == if ok then Cleared(t) else []
    {
      if |t| > SHARED_LEN {
        return false;
      }
      var i := 0;
      while i < |t|
        invariant 0 <= i <= |t| && sharedLen == i
        invariant forall k :: 0 <= k < i ==> IsMcast(t[k].mac)
        invariant sharedTable[..i] == Cleared(t)[..i]
      {
        if !IsMcast(t[i].mac) {
          sharedLen := 0;
          return false;
        }
        sharedTable[i] := t[i].(refCnt := 0);
        sharedLen := sharedLen + 1;
        i := i + 1;
      }
      ok := true;
    }

    method LoadRsvd(t: seq<Rsvd>) returns (ok: bool)
      requires Shape() && rsvdLen == 0
      modifies this`rsvdLen, rsvdTable
      ensures Shape()
      ensures ok <==> RsvdOk(t)
      ensures rsvdTable[..rsvdLen] == if ok then t else []
    {
      if |t| > RSVD_LEN {
        return false;
      }
      var i := 0;
      while i < |t|
        invariant 0 <= i <= |t| && rsvdLen == i
        invariant forall k :: 0 <= k < i ==> IsMcast(t[k].mac)
        invariant rsvdTable[..i] == t[..i]
      {
        if !IsMcast(t[i].mac) {
          rsvdLen := 0;
          return false;
        }
        rsvdTable[i] := t[i];
        rsvdLen := rsvdLen + 1;
        i := i + 1;
      }
      ok := true;
    }

    method IsRsvdMcast(mac: Mac, vlan: nat) returns (found: bool)
      requires Shape()
      ensures found == FindRsvd(Tables().rsvd, mac, vlan, 0)
    {
      var i := 0;
      while i < rsvdLen
        invariant 0 <= i <= rsvdLen
        invariant FindRsvd(Tables().rsvd, mac, vlan, 0) == FindRsvd(Tables().rsvd, mac, vlan, i)
      {
        if rsvdTable[i].vlan == vlan && rsvdTable[i].mac == mac {
          return true;
        }
        i := i + 1;
      }
      found := false;
    }

    method GetSharedMcastInfo(mac: Mac) returns (entry: Option<nat>)
      requires Shape()
      ensures entry == FindShared(Tables().shared, mac, 0)
    {
      var i := 0;
      while i < sharedLen && sharedTable[i].mac != mac
        invariant 0 <= i <= sharedLen
        invariant FindShared(Tables().shared, mac, 0) == FindShared(Tables().shared, mac, i)
      {
        i := i + 1;
      }
      entry := if i < sharedLen then Some(i) else None;
    }

    method GetExclusiveMcastInfo(mac: Mac) returns (entry: Option<nat>)
      requires Shape()
      ensures entry == FindExcl(Tables().excl, mac, 0)
    {
      var i := 0;
      while i < EXCL_LEN && !(!exclTable[i].isFree && exclTable[i].mac == mac)
        invariant 0 <= i <= EXCL_LEN
        invariant FindExcl(Tables().excl, mac, 0) == FindExcl(Tables().excl, mac, i)
      {
        i := i + 1;
      }
      entry := if i < EXCL_LEN then Some(i) else None;
    }

    method FilterAddMacShared(i: nat, mac: Mac, core: nat, io: Io) returns (status: Status)
      requires Shape() && i < sharedLen
      modifies sharedTable, hw, bridge`fdb, bridge.masks
      ensures Shape()
      ensures With(status) == AddShared(old(Tables()), old(hw.State()), old(bridge.State()), i, mac, core, io)
    {
      status := Sok;
      if sharedTable[i].refCnt == 0 {
        status := hw.AddMcast(mac, sharedTable[i].portMask, io.addOk);
      }
      if status == Sok {
        sharedTable[i] := sharedTable[i].(refCnt := sharedTable[i].refCnt + 1);
        assert sharedTable[..sharedLen] == old(sharedTable[..sharedLen])[i := sharedTable[i]];
        bridge.FilterAddMacSharedCb(mac, core, io);
      }
    }

    method FilterDelMacShared(i: nat, mac: Mac, core: nat, io: Io) returns (status: Status)
      requires Shape() && i < sharedLen
      modifies sharedTable, hw, bridge`fdb, bridge.masks
      ensures Shape()
      ensures With(status) == DelShared(old(Tables()), old(hw.State()), old(bridge.State()), i, mac, core, io)
    {
      status := Sok;
      if sharedTable[i].refCnt == 1 {
        status := hw.RemoveAddr(mac, io.removeOk);
      } else if sharedTable[i].refCnt == 0 {
        status := Efail;
      }
      if status == Sok {
        sharedTable[i] := sharedTable[i].(refCnt := sharedTable[i].refCnt - 1);
        assert sharedTable[..sharedLen] == old(sharedTable[..sharedLen])[i := sharedTable[i]];
        bridge.FilterDelMacSharedCb(mac, core, io);
      }
    }

    /** Takes a slot, then programs the switch; the slot is kept if that fails. */
    method FilterAddMacExcl(port: VirtPort, mac: Mac, io: Io) returns (status: Status)
      requires Shape()
      modifies exclTable, hw
      ensures Shape()
      ensures With(status) == AddExcl(old(Tables()), old(hw.State()), old(bridge.State()), port, mac, io)
    {
      if io.lookupErr {
        return Edriver;
      }
      if mac in hw.entries {
        return Ebusy;
      }
      var i := 0;
      while i < EXCL_LEN && !exclTable[i].isFree
        invariant 0 <= i <= EXCL_LEN
        invariant FindSlot(Tables().excl, 0) == FindSlot(Tables().excl, i)
      {
        i := i + 1;
      }
      if i == EXCL_LEN {
        return Ealloc;
      }
      exclTable[i] := Excl(mac, port, 1, false);
      assert exclTable[..] == old(exclTable[..])[i := exclTable[i]];
      status := hw.AddMcast(mac, ExclMask(switchMask, port), io.addOk);
      if status == Sok {
        status := hw.SetPolicer(PolicerKey(mac, port), io.policerOk);
      }
    }

    method FilterDelMacExcl(i: nat, port: VirtPort, mac: Mac, io: Io) returns (status: Status)
      requires Shape() && i < EXCL_LEN
      modifies exclTable, hw
      ensures Shape()
      ensures With(status) == DelExcl(old(Tables()), old(hw.State()), old(bridge.State()), i, port, mac, io)
    {
      status := Sok;
      if exclTable[i].refCnt > 1 {
        exclTable[i] := exclTable[i].(refCnt := exclTable[i].refCnt - 1);
      } else if exclTable[i].refCnt == 1 {
        exclTable[i] := exclTable[i].(refCnt := 0);
        status := hw.DelPolicerAll(PolicerKey(mac, port), io.removeOk);
        if status == Sok {
          exclTable[i] := exclTable[i].(isFree := true, refCnt := 0);
        } else {
          exclTable[i] := exclTable[i].(refCnt := 1);
        }
      }
      assert exclTable[..] == old(exclTable[..])[i := exclTable[i]];
    }

    method FilterAddMac(port: VirtPort, mac: Mac, vlan: nat, core: nat, io: Io) returns (status: Status)
      requires Valid()
      modifies sharedTable, exclTable, hw, bridge`fdb, bridge.masks
      ensures Valid()
      ensures With(status) == AddMac(old(Tables()), old(hw.State()), old(bridge.State()), port, mac, vlan, core, io)
    {
      ExclKeeps(World(Tables(), hw.State(), bridge.State(), []), Op(true, port, mac, vlan, core, io));
      var rsvd := IsRsvdMcast(mac, vlan);
      if rsvd {
        return Ebadargs;
      }
      var shared := GetSharedMcastInfo(mac);
      if shared.Some? {
        status := FilterAddMacShared(shared.value, mac, core, io);
        return;
      }
      var excl := GetExclusiveMcastInfo(mac);
      if excl.Some? {
        var i := excl.value;
        if exclTable[i].virtPort == port {
          exclTable[i] := exclTable[i].(refCnt := exclTable[i].refCnt + 1);
          assert exclTable[..] == old(exclTable[..])[i := exclTable[i]];
          status := Sok;
        } else {
          status := Efail;
        }
      } else {
        status := FilterAddMacExcl(port, mac, io);
      }
    }

    method FilterDelMac(port: VirtPort, mac: Mac, vlan: nat, core: nat, io: Io) returns (status: Status)
      requires Valid()
      modifies sharedTable, exclTable, hw, bridge`fdb, bridge.masks
      ensures Valid()
      ensures With(status) == DelMac(old(Tables()), old(hw.State()), old(bridge.State()), port, mac, vlan, core, io)
    {
      ExclKeeps(World(Tables(), hw.State(), bridge.State(), []), Op(false, port, mac, vlan, core, io));
      var rsvd := IsRsvdMcast(mac, vlan);
      if rsvd {
        return Ebadargs;
      }
      var shared := GetSharedMcastInfo(mac);
      if shared.Some? {
        status := FilterDelMacShared(shared.value, mac, core, io);
        return;
      }
      var excl := GetExclusiveMcastInfo(mac);
      if excl.Some? && exclTable[excl.value].virtPort == port {
        status := FilterDelMacExcl(excl.value, port, mac, io);
      } else {
        status := Efail;
      }
    }
  }
}
