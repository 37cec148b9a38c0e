/** The multicast filter of the Ethernet firmware: reserved, shared and exclusive addresses,
    the switch's address table (ALE) behind it, and the bridge callbacks. Port masks are
    represented by the set of their bits. */
module McastSpec {
  import opened Common

  const EXCL_LEN: nat := 32
  const SHARED_LEN: nat := 8
  const RSVD_LEN: nat := 4

  type Mask = set<nat>

  /** A virtual port stands for the switch or for one MAC port. */
  datatype VirtPort = SwitchPort(n: nat) | MacPort(n: nat, macPort: nat)

  datatype Rsvd = Rsvd(mac: Mac, vlan: nat, portMask: Mask)
  datatype Shared = Shared(mac: Mac, portMask: Mask, virtPortMask: Mask, refCnt: nat)
  datatype Excl = Excl(mac: Mac, virtPort: VirtPort, refCnt: nat, isFree: bool)

  datatype Filter = Filter(rsvd: seq<Rsvd>, shared: seq<Shared>, excl: seq<Excl>, switchMask: Mask)

  /** The address table and the classifiers, keyed by address and ingress port. */
  datatype Ale = Ale(entries: map<Mac, Mask>, policers: set<(Mac, Option<nat>)>)

  /** The bridge: its address table, one port mask per address, the forwarding entries and the
      core-to-port map (0 where not set). */
  datatype Bridge = Bridge(table: seq<Mac>, masks: seq<Mask>, fdb: map<Mac, Mask>, portMap: map<nat, nat>)

  /** Outcomes of the driver calls an operation makes. */
  datatype Io = Io(lookupErr: bool, addOk: bool, policerOk: bool, removeOk: bool, fdbOk: bool)

  datatype Status = Sok | Efail | Ebusy | Ealloc | Ebadargs | Edriver

  datatype Result = Result(filter: Filter, ale: Ale, bridge: Bridge, status: Status)

  // ----- lookups -----

  function FindRsvd(t: seq<Rsvd>, mac: Mac, vlan: nat, i: nat): (r: bool)
    requires i <= |t|
    ensures r <==> exists k :: i <= k < |t| && t[k].mac == mac && t[k].vlan == vlan
    decreases |t| - i
  {
    if i == |t| then false
    else if t[i].vlan == vlan && t[i].mac == mac then true
    else FindRsvd(t, mac, vlan, i + 1)
  }

  function FindShared(t: seq<Shared>, mac: Mac, i: nat): (r: Option<nat>)
    requires i <= |t|
    ensures r.Some? ==> i <= r.value < |t| && t[r.value].mac == mac
                        && forall k :: i <= k < r.value ==> t[k].mac != mac
    ensures r.None? ==> forall k :: i <= k < |t| ==> t[k].mac != mac
    decreases |t| - i
  {
    if i == |t| then None else if t[i].mac == mac then Some(i) else FindShared(t, mac, i + 1)
  }

  predicate InUseFor(e: Excl, mac: Mac) { !e.isFree && e.mac == mac }

  function FindExcl(t: seq<Excl>, mac: Mac, i: nat): (r: Option<nat>)
    requires i <= |t|
    ensures r.Some? ==> i <= r.value < |t| && InUseFor(t[r.value], mac)
                        && forall k :: i <= k < r.value ==> !InUseFor(t[k], mac)
    ensures r.None? ==> forall k :: i <= k < |t| ==> !InUseFor(t[k], mac)
    decreases |t| - i
  {
    if i == |t| then None else if InUseFor(t[i], mac) then Some(i) else FindExcl(t, mac, i + 1)
  }

  function FindSlot(t: seq<Excl>, i: nat): (r: Option<nat>)
    requires i <= |t|
    ensures r.Some? ==> i <= r.value < |t| && t[r.value].isFree
                        && forall k :: i <= k < r.value ==> !t[k].isFree
    ensures r.None? ==> forall k :: i <= k < |t| ==> !t[k].isFree
    decreases |t| - i
  {
    if i == |t| then None else if t[i].isFree then Some(i) else FindSlot(t, i + 1)
  }

  function FindMac(t: seq<Mac>, mac: Mac, i: nat): (r: Option<nat>)
    requires i <= |t|
    ensures r.Some? ==> i <= r.value < |t| && t[r.value] == mac
                        && forall k :: i <= k < r.value ==> t[k] != mac
    ensures r.None? ==> mac !in t[i..]
    decreases |t| - i
  {
    if i == |t| then None else if t[i] == mac then Some(i) else FindMac(t, mac, i + 1)
  }

  // ----- bridge callbacks -----

  function PortOf(m: map<nat, nat>, core: nat): nat { if core in m then m[core] else 0 }

  /** A forwarding entry is removed and added again with the new mask. */
  function Refresh(fdb: map<Mac, Mask>, mac: Mac, mask: Mask, ok: bool): map<Mac, Mask> {
    if ok then (fdb - {mac})[mac := mask] else fdb - {mac}
  }

  function BridgeAdd(b: Bridge, mac: Mac, core: nat, io: Io): Bridge
    requires |b.masks| == |b.table|
  {
    var i := FindMac(b.table, mac, 0);
    if i.None? then b
    else
      var mask := b.masks[i.value] + {PortOf(b.portMap, core)};
      b.(masks := b.masks[i.value := mask], fdb := Refresh(b.fdb, mac, mask, io.fdbOk))
  }

  function BridgeDel(b: Bridge, mac: Mac, core: nat, io: Io): Bridge
    requires |b.masks| == |b.table|
  {
    var i := FindMac(b.table, mac, 0);
    if i.None? then b
    else
      var mask := b.masks[i.value] - {PortOf(b.portMap, core)};
      b.(masks := b.masks[i.value := mask],
         fdb := if mask == {} then b.fdb - {mac} else Refresh(b.fdb, mac, mask, io.fdbOk))
  }

  // ----- shared addresses -----

  function AddShared(f: Filter, ale: Ale, b: Bridge, i: nat, mac: Mac, core: nat, io: Io): Result
    requires i < |f.shared| && |b.masks| == |b.table|
  {
    var e := f.shared[i];
    if e.refCnt == 0 && !io.addOk then Result(f, ale, b, Edriver)
    else
      Result(f.(shared := f.shared[i := e.(refCnt := e.refCnt + 1)]),
             if e.refCnt == 0 then ale.(entries := ale.entries[mac := e.portMask]) else ale,
             BridgeAdd(b, mac, core, io), Sok)
  }

  function DelShared(f: Filter, ale: Ale, b: Bridge, i: nat, mac: Mac, core: nat, io: Io): Result
    requires i < |f.shared| && |b.masks| == |b.table|
  {
    var e := f.shared[i];
    if e.refCnt == 0 then Result(f, ale, b, Efail)
    else if e.refCnt == 1 && !io.removeOk then Result(f, ale, b, Edriver)
    else
      Result(f.(shared := f.shared[i := e.(refCnt := e.refCnt - 1)]),
             if e.refCnt == 1 then ale.(entries := ale.entries - {mac}) else ale,
             BridgeDel(b, mac, core, io), Sok)
  }

  // ----- exclusive addresses -----

  const HOST_PORT: nat := 0

  /** Host port plus the MAC port, or plus all switch ports; MAC port p is ALE port p + 1. */
  function ExclMask(switchMask: Mask, port: VirtPort): Mask {
    {HOST_PORT} + match port
                  case MacPort(_, p) => {p + 1}
                  case SwitchPort(_) => set p | p in switchMask :: p + 1
  }

  /** The classifier also matches on the ingress port for MAC ports. */
  function PolicerKey(mac: Mac, port: VirtPort): (Mac, Option<nat>) {
    match port
    case MacPort(_, p) => (mac, Some(p + 1))
    case SwitchPort(_) => (mac, None)
  }

  /** The table slot is taken before the two driver calls that may fail. */
  function AddExcl(f: Filter, ale: Ale, b: Bridge, port: VirtPort, mac: Mac, io: Io): Result {
    if io.lookupErr then Result(f, ale, b, Edriver)
    else if mac in ale.entries then Result(f, ale, b, Ebusy)
    else
      var i := FindSlot(f.excl, 0);
      if i.None? then Result(f, ale, b, Ealloc)
      else
        var f' := f.(excl := f.excl[i.value := Excl(mac, port, 1, false)]);
        if !io.addOk then Result(f', ale, b, Edriver)
        else
          var ale' := ale.(entries := ale.entries[mac := ExclMask(f.switchMask, port)]);
          if !io.policerOk then Result(f', ale', b, Edriver)
          else Result(f', ale'.(policers := ale'.policers + {PolicerKey(mac, port)}), b, Sok)
  }

  /** Deleting the classifier also deletes the address entry it refers to. */
  function DelPolicer(ale: Ale, port: VirtPort, mac: Mac): Ale {
    ale.(entries := ale.entries - {mac}, policers := ale.policers - {PolicerKey(mac, port)})
  }

  function DelExcl(f: Filter, ale: Ale, b: Bridge, i: nat, port: VirtPort, mac: Mac, io: Io): Result
    requires i < |f.excl|
  {
    var e := f.excl[i];
    if e.refCnt > 1 then
      Result(f.(excl := f.excl[i := e.(refCnt := e.refCnt - 1)]), ale, b, Sok)
    else if e.refCnt == 1 then
      if io.removeOk then
        Result(f.(excl := f.excl[i := e.(refCnt := 0, isFree := true)]), DelPolicer(ale, port, mac), b, Sok)
      else Result(f, ale, b, Edriver)
    else Result(f, ale, b, Sok)
  }

  // ----- the two entry points -----

  function AddMac(f: Filter, ale: Ale, b: Bridge, port: VirtPort, mac: Mac, vlan: nat, core: nat, io: Io): Result
    requires |b.masks| == |b.table|
  {
    if FindRsvd(f.rsvd, mac, vlan, 0) then Result(f, ale, b, Ebadargs)
    else
      var i := FindShared(f.shared, mac, 0);
      if i.Some? then AddShared(f, ale, b, i.value, mac, core, io)
      else
        var j := FindExcl(f.excl, mac, 0);
        if j.None? then AddExcl(f, ale, b, port, mac, io)
        else if f.excl[j.value].virtPort != port then Result(f, ale, b, Efail)
        else
          var e := f.excl[j.value];
          Result(f.(excl := f.excl[j.value := e.(refCnt := e.refCnt + 1)]), ale, b, Sok)
  }

  function DelMac(f: Filter, ale: Ale, b: Bridge, port: VirtPort, mac: Mac, vlan: nat, core: nat, io: Io): Result
    requires |b.masks| == |b.table|
  {
    if FindRsvd(f.rsvd, mac, vlan, 0) then Result(f, ale, b, Ebadargs)
    else
      var i := FindShared(f.shared, mac, 0);
      if i.Some? then DelShared(f, ale, b, i.value, mac, core, io)
      else
        var j := FindExcl(f.excl, mac, 0);
        if j.None? || f.excl[j.value].virtPort != port then Result(f, ale, b, Efail)
        else DelExcl(f, ale, b, j.value, port, mac, io)
  }

  // ----- initialisation -----

  datatype Config = Config(shared: seq<Shared>, rsvd: seq<Rsvd>, switchMask: Mask)

  const FREE_EXCL: Excl := Excl(0, SwitchPort(0), 0, true)

  function EmptyFilter(): Filter { Filter([], [], seq(EXCL_LEN, _ => FREE_EXCL), {}) }

  predicate SharedOk(t: seq<Shared>) {
    |t| <= SHARED_LEN && forall k :: 0 <= k < |t| ==> IsMcast(t[k].mac)
  }

  predicate RsvdOk(t: seq<Rsvd>) {
    |t| <= RSVD_LEN && forall k :: 0 <= k < |t| ==> IsMcast(t[k].mac)
  }

  function Cleared(t: seq<Shared>): (r: seq<Shared>)
    ensures |r| == |t| && forall k :: 0 <= k < |t| ==> r[k] == t[k].(refCnt := 0)
  {
    seq(|t|, k requires 0 <= k < |t| => t[k].(refCnt := 0))
  }

  /** A bad shared table leaves both tables empty, a bad reserved table only that one. */
  function InitFilter(cfg: Config): (r: (Filter, bool)) {
    if !SharedOk(cfg.shared) then (EmptyFilter(), false)
    else if !RsvdOk(cfg.rsvd) then (EmptyFilter().(shared := Cleared(cfg.shared)), false)
    else (EmptyFilter().(shared := Cleared(cfg.shared), rsvd := cfg.rsvd, switchMask := cfg.switchMask), true)
  }
}
