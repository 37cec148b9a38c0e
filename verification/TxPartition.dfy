/** Partitioning of the transmit channels among the cores that own virtual ports. */
module TxPartition {
  import opened Common

  /** A channel slot: unset ("any"), or an absolute channel number. */
  type TxSlot = Option<nat>

  datatype Core = Core(coreId: nat, numTxCh: nat, numRxFlows: nat, numMac: nat, txCh: seq<TxSlot>)

  /** A virtual port's request; only the first `numTxCh` channels are meant. */
  datatype Port = Port(coreId: nat, numTxCh: nat, txCh: seq<TxSlot>, numRxFlow: nat, numMac: nat)

  function Unset(k: nat): (r: seq<TxSlot>)
    ensures |r| == k
  {
    seq(k, _ => None)
  }

  // ----- placing one port's channels in a core's array -----

  /** The placing loop from index `i`, with `j` channels placed so far. */
  function Place(arr: seq<TxSlot>, i: nat, src: seq<TxSlot>, j: nat, n: nat): (r: seq<TxSlot>)
    requires j <= i <= |arr| && |src| == |arr|
    ensures |r| == |arr|
    decreases |arr| - i
  {
    if i == |arr| then arr
    else
      var arr', j' := if arr[i] == None then arr[i := src[j]] else arr, if arr[i] == None then j + 1 else j;
      if j' == n then arr' else Place(arr', i + 1, src, j', n)
  }

  function SetTx(arr: seq<TxSlot>, src: seq<TxSlot>, n: nat): (r: seq<TxSlot>)
    requires |src| == |arr|
    ensures |r| == |arr|
  {
    Place(arr, 0, src, 0, n)
  }

  predicate AllSet(s: seq<TxSlot>) { forall i :: 0 <= i < |s| ==> s[i].Some? }

  function Min(a: nat, b: nat): nat { if a < b then a else b }

  /** Passing over the slots already set. */
  lemma {:induction false} PlaceSkips(used: seq<TxSlot>, free: nat, src: seq<TxSlot>, i: nat, n: nat)
    requires AllSet(used) && i <= |used| && |src| == |used| + free && n > 0
    ensures Place(used + Unset(free), i, src, 0, n) == Place(used + Unset(free), |used|, src, 0, n)
    decreases |used| - i
  {
    if i < |used| {
      PlaceSkips(used, free, src, i + 1, n);
    }
  }

  /** Filling the unset slots, up to `n` channels or the end of the array. */
  lemma {:induction false} PlaceFills(pre: seq<TxSlot>, free: nat, src: seq<TxSlot>, j: nat, n: nat)
    requires |src| == |pre| + free && j <= |pre| && (j < n || n == 0)
    ensures var m := if n == 0 then free else Min(n - j, free);
            Place(pre + Unset(free), |pre|, src, j, n) == pre + src[j..j + m] + Unset(free - m)
    decreases free
  {
    if free > 0 {
      var arr, one := pre + Unset(free), pre + [src[j]];
      assert arr[|pre| := src[j]] == one + Unset(free - 1);
      if j + 1 != n {
        PlaceFills(one, free - 1, src, j + 1, n);
        var m := if n == 0 then free else Min(n - j, free);
        assert one + src[j + 1..j + m] == pre + src[j..j + m];
      }
    }
  }

  /** What the placing loop does to an array that is set up to some point: it appends the port's
      channels, cut off at the end of the array. With a count of zero the loop does not stop: it
      leaves the array alone only if its first slot is already set, and otherwise copies every slot. */
  lemma SetTxExactly(used: seq<TxSlot>, free: nat, src: seq<TxSlot>, n: nat)
    requires AllSet(used) && |src| == |used| + free
    ensures n > 0 ==>
              var m := Min(n, free);
              SetTx(used + Unset(free), src, n) == used + src[..m] + Unset(free - m)
    ensures n == 0 ==> SetTx(used + Unset(free), src, n) == if used == [] then src else used + Unset(free)
  {
    if n > 0 {
      PlaceSkips(used, free, src, 0, n);
      PlaceFills(used, free, src, 0, n);
    } else if used == [] {
      PlaceFills([], free, src, 0, 0);
      assert [] + Unset(free) == Unset(free);
    } else {
      assert (used + Unset(free))[0] == used[0];
    }
  }

  // ----- the whole partition -----

  /** First core entry with the id. */
  function CoreIndex(cores: seq<Core>, id: nat, i: nat): (r: nat)
    requires i <= |cores|
    ensures i <= r <= |cores| && (r < |cores| ==> cores[r].coreId == id)
    ensures forall k :: i <= k < r ==> cores[k].coreId != id
    decreases |cores| - i
  {
    if i == |cores| || cores[i].coreId == id then i else CoreIndex(cores, id, i + 1)
  }

  /** Every array has the same number of slots. */
  ghost predicate Sized(cores: seq<Core>, k: nat) {
    forall c :: 0 <= c < |cores| ==> |cores[c].txCh| == k
  }

  ghost predicate PortsSized(ports: seq<Port>, k: nat) {
    forall p :: 0 <= p < |ports| ==> |ports[p].txCh| == k
  }

  /** The port's core is in the table. */
  predicate Known(cores: seq<Core>, ports: seq<Port>) {
    forall p :: 0 <= p < |ports| ==> CoreIndex(cores, ports[p].coreId, 0) < |cores|
  }

  function ResetChannels(cores: seq<Core>): (r: seq<Core>)
    ensures |r| == |cores|
    ensures forall c :: 0 <= c < |cores| ==> r[c] == cores[c].(txCh := Unset(|cores[c].txCh|))
  {
    seq(|cores|, c requires 0 <= c < |cores| => cores[c].(txCh := Unset(|cores[c].txCh|)))
  }

  function AddPort(core: Core, port: Port): Core
    requires |core.txCh| == |port.txCh|
  {
    core.(numTxCh := core.numTxCh + port.numTxCh,
          numRxFlows := core.numRxFlows + port.numRxFlow,
          numMac := core.numMac + port.numMac,
          txCh := SetTx(core.txCh, port.txCh, port.numTxCh))
  }

  lemma SameIds(cores: seq<Core>, other: seq<Core>, id: nat, i: nat)
    requires |cores| == |other| && i <= |cores|
    requires forall c :: 0 <= c < |cores| ==> cores[c].coreId == other[c].coreId
    ensures CoreIndex(cores, id, i) == CoreIndex(other, id, i)
    decreases |cores| - i
  {
  }

  /** The ports are served in order. */
  function Update(cores: seq<Core>, ports: seq<Port>, k: nat): (r: seq<Core>)
    requires Sized(cores, k) && PortsSized(ports, k) && Known(cores, ports)
    ensures |r| == |cores| && Sized(r, k)
    ensures forall c :: 0 <= c < |cores| ==> r[c].coreId == cores[c].coreId
  {
    if ports == [] then cores
    else
      var last := |ports| - 1;
      var before := Update(cores, ports[..last], k);
      var c := CoreIndex(cores, ports[last].coreId, 0);
      before[c := AddPort(before[c], ports[last])]
  }

  /** Counts of the cores named by ports go back to zero. */
  function ZeroCounts(cores: seq<Core>, ports: seq<Port>): (r: seq<Core>)
    requires Known(cores, ports)
    ensures |r| == |cores|
    ensures forall c :: 0 <= c < |cores| ==> r[c].coreId == cores[c].coreId && r[c].txCh == cores[c].txCh
  {
    if ports == [] then cores
    else
      var last := |ports| - 1;
      var before := ZeroCounts(cores, ports[..last]);
      var c := CoreIndex(cores, ports[last].coreId, 0);
      before[c := before[c].(numTxCh := 0, numRxFlows := 0, numMac := 0)]
  }

  // ----- the table object -----

  class CoreTable {
    const cores: array<Core>

    constructor (init: seq<Core>)
      ensures fresh(cores) && cores[..] == init
    {
      cores := new Core[|init|](i requires 0 <= i < |init| => init[i]);
    }

    method GetCoreDmaResIndex(id: nat) returns (idx: nat)
      ensures idx == CoreIndex(cores[..], id, 0)
    {
      idx := 0;
      while idx < cores.Length && cores[idx].coreId != id
        invariant 0 <= idx <= cores.Length
        invariant CoreIndex(cores[..], id, 0) == CoreIndex(cores[..], id, idx)
      {
        idx := idx + 1;
      }
    }

    method ResetTxCh()
      modifies cores
      ensures cores[..] == ResetChannels(old(cores[..]))
    {
      var i := 0;
      while i < cores.Length
        invariant 0 <= i <= cores.Length
        invariant forall c :: 0 <= c < cores.Length ==>
                    cores[c] == if c < i then ResetChannels(old(cores[..]))[c] else old(cores[c])
      {
        var j, ch := 0, cores[i].txCh;
        while j < |ch|
          invariant 0 <= j <= |ch| == |old(cores[i].txCh)|
          invariant forall k :: 0 <= k < j ==> ch[k] == None
        {
          ch := ch[j := None];
          j := j + 1;
        }
        assert ch == Unset(|ch|);
        cores[i] := cores[i].(txCh := ch);
        i := i + 1;
      }
    }

    method SetTxChRmInfo(c: nat, port: Port)
      requires c < cores.Length && |cores[c].txCh| == |port.txCh|
      modifies cores
      ensures cores[..]
              == old(cores[..])[c := old(cores[c]).(txCh := SetTx(old(cores[c].txCh), port.txCh, port.numTxCh))]
    {
      var i, j := 0, 0;
      ghost var goal := SetTx(cores[c].txCh, port.txCh, port.numTxCh);
      while i < |port.txCh|
        invariant 0 <= j <= i <= |port.txCh| == |cores[c].txCh|
        invariant cores[..] == old(cores[..])[c := old(cores[c]).(txCh := cores[c].txCh)]
        invariant goal == Place(cores[c].txCh, i, port.txCh, j, port.numTxCh)
      {
        if cores[c].txCh[i] == None {
          cores[c] := cores[c].(txCh := cores[c].txCh[i := port.txCh[j]]);
          j := j + 1;
        }
        if j == port.numTxCh {
          return;
        }
        i := i + 1;
      }
    }

    method UpdateEnetRm(ports: seq<Port>, ghost k: nat)
      requires Sized(cores[..], k) && PortsSized(ports, k) && Known(cores[..], ports)
      modifies cores
      ensures cores[..] == Update(old(cores[..]), ports, k)
    {
      var i := 0;
      while i < |ports|
        invariant 0 <= i <= |ports|
        invariant cores[..] == Update(old(cores[..]), ports[..i], k)
      {
        assert ports[..i + 1][..i] == ports[..i];
        SameIds(old(cores[..]), cores[..], ports[i].coreId, 0);
        var c := GetCoreDmaResIndex(ports[i].coreId);
        cores[c] := cores[c].(numTxCh := cores[c].numTxCh + ports[i].numTxCh,
                              numRxFlows := cores[c].numRxFlows + ports[i].numRxFlow,
                              numMac := cores[c].numMac + ports[i].numMac);
        SetTxChRmInfo(c, ports[i]);
        i := i + 1;
      }
      assert ports[..i] == ports;
    }

    method ResetCounts(ports: seq<Port>)
      requires Known(cores[..], ports)
      modifies cores
      ensures cores[..] == ZeroCounts(old(cores[..]), ports)
    {
      var i := 0;
      while i < |ports|
        invariant 0 <= i <= |ports|
        invariant cores[..] == ZeroCounts(old(cores[..]), ports[..i])
      {
        assert ports[..i + 1][..i] == ports[..i];
        SameIds(old(cores[..]), cores[..], ports[i].coreId, 0);
        var c := GetCoreDmaResIndex(ports[i].coreId);
        cores[c] := cores[c].(numTxCh := 0, numRxFlows := 0, numMac := 0);
        i := i + 1;
      }
      assert ports[..i] == ports;
    }
  }

  // ----- what the partition is -----

  /** The channel lists of core `c`'s ports, in port order. */
  function Channels(cores: seq<Core>, ports: seq<Port>, c: nat): seq<TxSlot> {
    if ports == [] then []
    else
      var last := ports[|ports| - 1];
      Channels(cores, ports[..|ports| - 1], c)
      + if CoreIndex(cores, last.coreId, 0) == c && last.numTxCh <= |last.txCh|
        then last.txCh[..last.numTxCh] else []
  }

  function Flows(cores: seq<Core>, ports: seq<Port>, c: nat): nat {
    if ports == [] then 0
    else
      var last := ports[|ports| - 1];
      Flows(cores, ports[..|ports| - 1], c) + if CoreIndex(cores, last.coreId, 0) == c then last.numRxFlow else 0
  }

  function Macs(cores: seq<Core>, ports: seq<Port>, c: nat): nat {
    if ports == [] then 0
    else
      var last := ports[|ports| - 1];
      Macs(cores, ports[..|ports| - 1], c) + if CoreIndex(cores, last.coreId, 0) == c then last.numMac else 0
  }

  /** The channels that ports ask for are real. */
  predicate RealPorts(ports: seq<Port>) {
    forall p :: 0 <= p < |ports| ==>
      ports[p].numTxCh <= |ports[p].txCh| && AllSet(ports[p].txCh[..ports[p].numTxCh])
  }

  /** The port asks for no channel of core `c`, which has none yet, and its channel list is not unset. */
  predicate Spoils(cores: seq<Core>, earlier: seq<Port>, port: Port, c: nat) {
    && CoreIndex(cores, port.coreId, 0) == c
    && port.numTxCh == 0 && port.txCh != Unset(|port.txCh|)
    && Channels(cores, earlier, c) == []
  }

  /** Every port that asks for no channel comes after one that gives its core a channel, or has an
      unset channel list. */
  predicate Harmless(cores: seq<Core>, ports: seq<Port>) {
    ports == [] ||
    var init, last := ports[..|ports| - 1], ports[|ports| - 1];
    Harmless(cores, init) && !Spoils(cores, init, last, CoreIndex(cores, last.coreId, 0))
  }

  /** A core before any port is served. */
  ghost predicate Blank(core: Core) {
    ZeroCore(core) && core.txCh == Unset(|core.txCh|)
  }

  /** The core has exactly the channels `mine`, with matching counts. */
  ghost predicate CoreIs(core: Core, mine: seq<TxSlot>, k: nat, flows: nat, macs: nat) {
    && |mine| <= k
    && AllSet(mine)
    && core.txCh == mine + Unset(k - |mine|)
    && core.numTxCh == |mine|
    && core.numRxFlows == flows
    && core.numMac == macs
  }

  /** Core `c` has exactly its ports' channels, with matching counts. */
  ghost predicate PartitionAt(cores: seq<Core>, ports: seq<Port>, k: nat, c: nat)
    requires Sized(cores, k) && PortsSized(ports, k) && Known(cores, ports) && c < |cores|
  {
    CoreIs(Update(cores, ports, k)[c], Channels(cores, ports, c), k, Flows(cores, ports, c), Macs(cores, ports, c))
  }

  lemma PlacedExactly(mine: seq<TxSlot>, port: Port, k: nat)
    requires AllSet(mine) && |port.txCh| == k && |mine| + port.numTxCh <= k
    requires AllSet(port.txCh[..port.numTxCh])
    ensures AllSet(mine + port.txCh[..port.numTxCh])
    ensures SetTx(mine + Unset(k - |mine|), port.txCh, port.numTxCh)
            == mine + port.txCh[..port.numTxCh] + Unset(k - |mine| - port.numTxCh)
       <==> !(port.numTxCh == 0 && mine == [] && port.txCh != Unset(k))
  {
    SetTxExactly(mine, k - |mine|, port.txCh, port.numTxCh);
    assert port.numTxCh == 0 ==> mine + port.txCh[..0] + Unset(k - |mine|) == mine + Unset(k - |mine|);
    assert [] + Unset(k) == Unset(k);
  }

  lemma AddPortExactly(core: Core, mine: seq<TxSlot>, port: Port, k: nat, flows: nat, macs: nat)
    requires CoreIs(core, mine, k, flows, macs) && |port.txCh| == k && |mine| + port.numTxCh <= k
    requires AllSet(port.txCh[..port.numTxCh])
    ensures CoreIs(AddPort(core, port), mine + port.txCh[..port.numTxCh], k,
                   flows + port.numRxFlow, macs + port.numMac)
       <==> !(port.numTxCh == 0 && mine == [] && port.txCh != Unset(k))
  {
    PlacedExactly(mine, port, k);
  }

  /** One more port: a step of its own core, and of no other. */
  lemma UpdateLast(cores: seq<Core>, ports: seq<Port>, k: nat, c: nat)
    requires Sized(cores, k) && PortsSized(ports, k) && Known(cores, ports) && ports != [] && c < |cores|
    ensures var port, before := ports[|ports| - 1], Update(cores, ports[..|ports| - 1], k)[c];
            Update(cores, ports, k)[c]
            == if CoreIndex(cores, port.coreId, 0) == c then AddPort(before, port) else before
  {
  }

  lemma SumsLast(cores: seq<Core>, ports: seq<Port>, c: nat)
    requires ports != [] && ports[|ports| - 1].numTxCh <= |ports[|ports| - 1].txCh|
    ensures var init, port := ports[..|ports| - 1], ports[|ports| - 1];
            var own := CoreIndex(cores, port.coreId, 0) == c;
            && Channels(cores, ports, c) == Channels(cores, init, c) + (if own then port.txCh[..port.numTxCh] else [])
            && Flows(cores, ports, c) == Flows(cores, init, c) + (if own then port.numRxFlow else 0)
            && Macs(cores, ports, c) == Macs(cores, init, c) + (if own then port.numMac else 0)
  {
  }

  /** Serving one more port keeps a core's array a concatenation exactly when the port does not
      spoil it. */
  lemma ServeExactly(cores: seq<Core>, ports: seq<Port>, k: nat, c: nat)
    requires Sized(cores, k) && PortsSized(ports, k) && Known(cores, ports) && RealPorts(ports)
    requires ports != [] && c < |cores| && |Channels(cores, ports, c)| <= k
    requires PartitionAt(cores, ports[..|ports| - 1], k, c)
    ensures PartitionAt(cores, ports, k, c)
       <==> !Spoils(cores, ports[..|ports| - 1], ports[|ports| - 1], c)
  {
    var init, port := ports[..|ports| - 1], ports[|ports| - 1];
    UpdateLast(cores, ports, k, c);
    SumsLast(cores, ports, c);
    var core, mine := Update(cores, init, k)[c], Channels(cores, init, c);
    var flows, macs := Flows(cores, init, c), Macs(cores, init, c);
    assert CoreIs(core, mine, k, flows, macs);
    if CoreIndex(cores, port.coreId, 0) == c {
      AddPortExactly(core, mine, port, k, flows, macs);
    } else {
      assert mine + [] == mine;
    }
  }

  lemma {:induction false} ChannelsAre(cores: seq<Core>, ports: seq<Port>, k: nat, c: nat)
    requires Sized(cores, k) && PortsSized(ports, k) && Known(cores, ports) && c < |cores|
    requires RealPorts(ports) && Harmless(cores, ports) && Blank(cores[c])
    requires |Channels(cores, ports, c)| <= k
    ensures PartitionAt(cores, ports, k, c)
  {
    if ports == [] {
      assert [] + Unset(k) == Unset(k);
    } else {
      ChannelsAre(cores, ports[..|ports| - 1], k, c);
      ServeExactly(cores, ports, k, c);
    }
  }

  lemma {:induction false} PrefixOfPorts(cores: seq<Core>, ports: seq<Port>, n: nat, c: nat)
    requires n <= |ports|
    ensures |Channels(cores, ports[..n], c)| <= |Channels(cores, ports, c)|
    ensures Harmless(cores, ports) ==> Harmless(cores, ports[..n])
  {
    if n < |ports| {
      var init := ports[..|ports| - 1];
      assert init[..n] == ports[..n];
      PrefixOfPorts(cores, init, n, c);
    } else {
      assert ports[..n] == ports;
    }
  }

  /** After each port served so far, every core has exactly its ports' channels. */
  ghost predicate PartitionThroughout(cores: seq<Core>, ports: seq<Port>, k: nat)
    requires Sized(cores, k) && PortsSized(ports, k) && Known(cores, ports)
  {
    forall n, c :: 0 <= n <= |ports| && 0 <= c < |cores| ==> PartitionAt(cores, ports[..n], k, c)
  }

  /** The partition is right after each port exactly when every port that asks for no channel is
      harmless. */
  lemma {:induction false} PartitionExactly(cores: seq<Core>, ports: seq<Port>, k: nat)
    requires Sized(cores, k) && PortsSized(ports, k) && Known(cores, ports) && RealPorts(ports)
    requires forall c :: 0 <= c < |cores| ==> Blank(cores[c]) && |Channels(cores, ports, c)| <= k
    ensures PartitionThroughout(cores, ports, k) <==> Harmless(cores, ports)
  {
    if Harmless(cores, ports) {
      forall n, c | 0 <= n <= |ports| && 0 <= c < |cores|
        ensures PartitionAt(cores, ports[..n], k, c)
      {
        PrefixOfPorts(cores, ports, n, c);
        ChannelsAre(cores, ports[..n], k, c);
      }
    }
    if PartitionThroughout(cores, ports, k) && ports != [] {
      var last := |ports| - 1;
      var init, c := ports[..last], CoreIndex(cores, ports[last].coreId, 0);
      forall n, d | 0 <= n <= last && 0 <= d < |cores|
        ensures PartitionAt(cores, init[..n], k, d)
      {
        assert init[..n] == ports[..n];
      }
      forall d | 0 <= d < |cores| ensures |Channels(cores, init, d)| <= k {
        PrefixOfPorts(cores, ports, last, d);
      }
      PartitionExactly(cores, init, k);
      assert ports[..|ports|] == ports;
      ServeExactly(cores, ports, k, c);
    }
  }

  /** One core and one port that asks for no channel but lists channel `ch`: the core ends up with that
      channel and a count of zero. */
  lemma ZeroPortSpoils(id: nat, ch: nat, k: nat)
    requires k > 0
    ensures var cores, port := [Core(id, 0, 0, 0, Unset(k))], Port(id, 0, [Some(ch)] + Unset(k - 1), 0, 0);
            && Sized(cores, k) && PortsSized([port], k) && Known(cores, [port]) && RealPorts([port])
            && Blank(cores[0]) && Channels(cores, [port], 0) == []
            && Update(cores, [port], k)[0] == cores[0].(txCh := port.txCh)
            && !Harmless(cores, [port]) && !PartitionThroughout(cores, [port], k)
  {
    var cores, port := [Core(id, 0, 0, 0, Unset(k))], Port(id, 0, [Some(ch)] + Unset(k - 1), 0, 0);
    assert Sized(cores, k) && PortsSized([port], k);
    assert CoreIndex(cores, id, 0) == 0;
    assert Known(cores, [port]) && RealPorts([port]);
    assert [port][..0] == [] && [port][..1] == [port];
    SumsLast(cores, [port], 0);
    UpdateLast(cores, [port], k, 0);
    SetTxExactly([], k, port.txCh, 0);
    assert [] + Unset(k) == Unset(k);
    assert port.txCh[0] != Unset(k)[0];
    assert !PartitionAt(cores, [port][..1], k, 0);
  }

  // ----- disjointness -----

  /** All channels asked for, in port order. */
  function AllChannels(ports: seq<Port>): seq<TxSlot> {
    if ports == [] then []
    else
      var last := ports[|ports| - 1];
      AllChannels(ports[..|ports| - 1])
      + if last.numTxCh <= |last.txCh| then last.txCh[..last.numTxCh] else []
  }

  predicate Distinct(s: seq<TxSlot>) { forall i, j :: 0 <= i < j < |s| ==> s[i] != s[j] }

  lemma {:induction false} ChannelsFromAll(cores: seq<Core>, ports: seq<Port>, c: nat, x: TxSlot)
    requires x in Channels(cores, ports, c)
    ensures x in AllChannels(ports)
  {
    if ports != [] {
      var init, last := ports[..|ports| - 1], ports[|ports| - 1];
      if x in Channels(cores, init, c) {
        ChannelsFromAll(cores, init, c, x);
      }
    }
  }

  lemma DistinctParts(a: seq<TxSlot>, b: seq<TxSlot>)
    requires Distinct(a + b)
    ensures Distinct(a) && forall x :: x in a ==> x !in b
  {
    forall i, j | 0 <= i < j < |a| ensures a[i] != a[j] {
      assert (a + b)[i] == a[i] && (a + b)[j] == a[j];
    }
    forall x | x in a ensures x !in b {
      var i :| 0 <= i < |a| && a[i] == x;
      forall j | 0 <= j < |b| ensures b[j] != x {
        assert (a + b)[i] == a[i] && (a + b)[|a| + j] == b[j];
      }
    }
  }

  /** If the channels asked for are pairwise distinct, no channel goes to two cores. */
  lemma {:induction false} CoresDisjoint(cores: seq<Core>, ports: seq<Port>, c: nat, d: nat, x: TxSlot)
    requires Distinct(AllChannels(ports)) && c != d && x in Channels(cores, ports, c)
    ensures x !in Channels(cores, ports, d)
  {
    if ports != [] {
      var init, last := ports[..|ports| - 1], ports[|ports| - 1];
      var mine := if last.numTxCh <= |last.txCh| then last.txCh[..last.numTxCh] else [];
      DistinctParts(AllChannels(init), mine);
      if x in Channels(cores, init, c) {
        CoresDisjoint(cores, init, c, d, x);
        ChannelsFromAll(cores, init, c, x);
      } else if x in Channels(cores, init, d) {
        ChannelsFromAll(cores, init, d, x);
      }
    }
  }

  // ----- initialise, de-initialise, initialise -----

  function Initialise(cores: seq<Core>, ports: seq<Port>, k: nat): (r: seq<Core>)
    requires Sized(cores, k) && PortsSized(ports, k) && Known(cores, ports)
    ensures |r| == |cores| && Sized(r, k)
    ensures forall c :: 0 <= c < |cores| ==> r[c].coreId == cores[c].coreId
  {
    KnownSame(cores, ResetChannels(cores), ports);
    Update(ResetChannels(cores), ports, k)
  }

  lemma KnownSame(cores: seq<Core>, other: seq<Core>, ports: seq<Port>)
    requires |cores| == |other| && Known(cores, ports)
    requires forall c :: 0 <= c < |cores| ==> cores[c].coreId == other[c].coreId
    ensures Known(other, ports)
  {
    forall p | 0 <= p < |ports| ensures CoreIndex(other, ports[p].coreId, 0) < |other| {
      SameIds(cores, other, ports[p].coreId, 0);
    }
  }

  predicate ZeroCore(core: Core) { core.numTxCh == core.numRxFlows == core.numMac == 0 }

  /** The setting in which the partition is promised: known cores, real channels asked for, ports
      without channels harmless, counts at zero and per-core totals that fit. */
  ghost predicate Setting(cores: seq<Core>, ports: seq<Port>, k: nat) {
    && Sized(cores, k) && PortsSized(ports, k) && Known(cores, ports) && RealPorts(ports)
    && Harmless(ResetChannels(cores), ports)
    && (forall c :: 0 <= c < |cores| ==> ZeroCore(cores[c]))
    && (forall c :: 0 <= c < |cores| ==> |Channels(ResetChannels(cores), ports, c)| <= k)
  }

  /** After initialisation each core's array is the concatenation, in port order, of its ports'
      channel lists, unset beyond, and its counts are the sums over its ports. */
  lemma PartitionIsConcatenation(cores: seq<Core>, ports: seq<Port>, k: nat, c: nat)
    requires Setting(cores, ports, k) && c < |cores|
    ensures var blank := ResetChannels(cores);
            CoreIs(Initialise(cores, ports, k)[c], Channels(blank, ports, c), k,
                   Flows(blank, ports, c), Macs(blank, ports, c))
  {
    KnownSame(cores, ResetChannels(cores), ports);
    ChannelsAre(ResetChannels(cores), ports, k, c);
  }

  /** If moreover the channels asked for are pairwise distinct, no channel is in two cores' arrays. */
  lemma PartitionDisjoint(cores: seq<Core>, ports: seq<Port>, k: nat, c: nat, d: nat, n: nat)
    requires Setting(cores, ports, k) && Distinct(AllChannels(ports))
    requires c < |cores| && d < |cores| && c != d
    requires Some(n) in Initialise(cores, ports, k)[c].txCh
    ensures Some(n) !in Initialise(cores, ports, k)[d].txCh
  {
    PartitionIsConcatenation(cores, ports, k, c);
    PartitionIsConcatenation(cores, ports, k, d);
    CoresDisjoint(ResetChannels(cores), ports, c, d, Some(n));
  }

  /** Some port belongs to core `c`. */
  predicate HasPort(cores: seq<Core>, ports: seq<Port>, c: nat) {
    ports != [] &&
    (CoreIndex(cores, ports[|ports| - 1].coreId, 0) == c || HasPort(cores, ports[..|ports| - 1], c))
  }

  lemma {:induction false} UntouchedCore(cores: seq<Core>, ports: seq<Port>, k: nat, c: nat)
    requires Sized(cores, k) && PortsSized(ports, k) && Known(cores, ports) && c < |cores|
    requires !HasPort(cores, ports, c)
    ensures Update(cores, ports, k)[c] == cores[c]
  {
    if ports != [] {
      UntouchedCore(cores, ports[..|ports| - 1], k, c);
    }
  }

  lemma {:induction false} ZeroCountsAt(cores: seq<Core>, ports: seq<Port>, c: nat)
    requires Known(cores, ports) && c < |cores|
    ensures ZeroCounts(cores, ports)[c]
         == if HasPort(cores, ports, c) then cores[c].(numTxCh := 0, numRxFlows := 0, numMac := 0)
            else cores[c]
  {
    if ports != [] {
      ZeroCountsAt(cores, ports[..|ports| - 1], c);
    }
  }

  lemma {:induction false} HasPortSame(cores: seq<Core>, other: seq<Core>, ports: seq<Port>, c: nat)
    requires |cores| == |other|
    requires forall i :: 0 <= i < |cores| ==> cores[i].coreId == other[i].coreId
    ensures HasPort(cores, ports, c) == HasPort(other, ports, c)
  {
    if ports != [] {
      SameIds(cores, other, ports[|ports| - 1].coreId, 0);
      HasPortSame(cores, other, ports[..|ports| - 1], c);
    }
  }

  /** Initialisation, de-initialisation and initialisation with the same ports give the same
      partition as the first initialisation. */
  lemma ReinitialiseSame(cores: seq<Core>, ports: seq<Port>, k: nat)
    requires Sized(cores, k) && PortsSized(ports, k) && Known(cores, ports)
    requires forall c :: 0 <= c < |cores| ==> ZeroCore(cores[c])
    ensures var first := Initialise(cores, ports, k);
            && Known(first, ports)
            && Sized(ZeroCounts(first, ports), k) && Known(ZeroCounts(first, ports), ports)
            && Initialise(ZeroCounts(first, ports), ports, k) == first
  {
    var first := Initialise(cores, ports, k);
    KnownSame(cores, first, ports);
    var cleared := ZeroCounts(first, ports);
    KnownSame(first, cleared, ports);
    KnownSame(cores, ResetChannels(cores), ports);
    forall c | 0 <= c < |cores|
      ensures ResetChannels(cleared)[c] == ResetChannels(cores)[c]
    {
      ZeroCountsAt(first, ports, c);
      HasPortSame(first, ResetChannels(cores), ports, c);
      if !HasPort(first, ports, c) {
        UntouchedCore(ResetChannels(cores), ports, k, c);
      }
    }
    assert ResetChannels(cleared) == ResetChannels(cores);
  }
}
