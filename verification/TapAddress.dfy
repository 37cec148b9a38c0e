/** Addresses of pool buffers: layout of the shared pool table, and the conversions
    between a core's virtual addresses and the 32-bit physical address in a node. */
module TapAddress {
  import opened Common

  const ETH_FRAME_SIZE: nat := 1518
  const NUM_BUFFERS: nat := 1280

  /** Bytes of one buffer object: payload 1518, length 2, reference count 2, use flag 2
      (then 4-byte alignment), pool id 4, padding 8. */
  const BUF_BYTES: nat := 1536

  /** Eight 32-bit words precede the buffer array of a pool. */
  const POOL_HEADER: nat := 32
  const POOL_BYTES: nat := POOL_HEADER + NUM_BUFFERS * BUF_BYTES

  function VirtToPhy(virt: nat, virtBase: nat, phyBase: nat): nat {
    (virt - virtBase + phyBase) % U64
  }

  function PhyToVirt(phy: nat, phyBase: nat, virtBase: nat): nat {
    (virtBase + phy - phyBase) % U64
  }

  /** What the transmitter stores in the node: the physical address cut to 32 bits. */
  function NodeAddress(virt: nat, virtBase: nat, phyBase: nat): (r: nat)
    ensures r < U32
  {
    VirtToPhy(virt, virtBase, phyBase) % U32
  }

  /** Offset of buffer `b` of pool `poolId` from the start of the pool table. */
  function BufOffset(poolId: nat, b: nat): nat {
    poolId * POOL_BYTES + POOL_HEADER + b * BUF_BYTES
  }

  /** The buffer whose object starts at `virt`. */
  function BufAt(virt: nat, virtBase: nat, poolId: nat): int {
    (virt - virtBase - poolId * POOL_BYTES - POOL_HEADER) / BUF_BYTES
  }

  /** The byte at `off` of the table keeps its place across the two conversions, also into
      another core's mapping at `peerBase`, exactly when its physical address fits 32 bits. */
  lemma RoundTripIffBelow4G(off: nat, virtBase: nat, phyBase: nat, peerBase: nat)
    requires phyBase < U32
    requires virtBase + off < U64 && peerBase + off < U64 && phyBase + off < U64
    ensures PhyToVirt(NodeAddress(virtBase + off, virtBase, phyBase), phyBase, peerBase) == peerBase + off
            <==> phyBase + off < U32
  {
    var phy := phyBase + off;
    assert VirtToPhy(virtBase + off, virtBase, phyBase) == phy;
    var lost := phy - phy % U32;
    assert lost == 0 <==> phy < U32;
    assert peerBase + phy % U32 - phyBase == peerBase + off - lost;
  }

  /** Distinct buffers of a pool have distinct addresses, and an address names its buffer. */
  lemma BufAtOffset(poolId: nat, b: nat, virtBase: nat)
    ensures BufAt(virtBase + BufOffset(poolId, b), virtBase, poolId) == b
  {
  }

  /** For a buffer below 4 GiB the node holds the physical base plus its offset. */
  lemma NodeAddressExactly(off: nat, virtBase: nat, phyBase: nat)
    requires virtBase + off < U64 && phyBase + off < U64
    ensures NodeAddress(virtBase + off, virtBase, phyBase) % U32 == (phyBase + off) % U32
    ensures phyBase + off < U32 ==> NodeAddress(virtBase + off, virtBase, phyBase) == phyBase + off
  {
    assert VirtToPhy(virtBase + off, virtBase, phyBase) == phyBase + off;
  }

  /** The fields of a buffer object, in bytes: payload; length, reference count and use flag; pool id;
      padding. They leave no gap, since 1524 is a multiple of four. */
  const FIELD_BYTES: nat := ETH_FRAME_SIZE + 3 * 2 + 4 + 8

  /** The buffer objects of the pool table hold their fields, lie one after another in their pool and
      never overlap, in one pool or in two. */
  lemma BuffersDisjoint(poolId: nat, b: nat, otherId: nat, d: nat)
    requires b < NUM_BUFFERS && d < NUM_BUFFERS && (poolId != otherId || b != d)
    ensures BUF_BYTES == FIELD_BYTES
    ensures poolId * POOL_BYTES + POOL_HEADER <= BufOffset(poolId, b)
    ensures BufOffset(poolId, b) + BUF_BYTES <= (poolId + 1) * POOL_BYTES
    ensures BufOffset(poolId, b) + BUF_BYTES <= BufOffset(otherId, d)
            || BufOffset(otherId, d) + BUF_BYTES <= BufOffset(poolId, b)
  {
    if poolId < otherId {
      assert (poolId + 1) * POOL_BYTES <= otherId * POOL_BYTES;
    } else if otherId < poolId {
      assert (otherId + 1) * POOL_BYTES <= poolId * POOL_BYTES;
    }
  }
}
