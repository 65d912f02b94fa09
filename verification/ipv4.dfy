/**
 IPv4 addresses and network blocks as the `ipaddress` objects the allocator
 works with: an address is an unsigned 32-bit number, a block is a network
 address together with a prefix length, and everything else (size,
 broadcast address, usable hosts) is derived from those two.

 Masking an address with a netmask keeps its top `prefixLen` bits and clears
 the other 32 - `prefixLen` (the host bits).
 */
module Ipv4 {
  import opened Bits

  const MaxAddress: nat := 0xFFFF_FFFF

  /** 0.0.0.0 .. 255.255.255.255 */
  type Address = a: nat | a <= MaxAddress

  /** /0 .. /32 */
  type PrefixLen = p: nat | p <= 32

  /** Addresses in a block of the given prefix length (`num_addresses`). */
  function BlockSize(p: PrefixLen): (r: nat)
    ensures r >= 1
  {
    Pow2(32 - p)
  }

  /** A longer prefix is a strictly smaller block. */
  lemma BlockSizeStrictlyDecreasing(p: PrefixLen, q: PrefixLen)
    requires p < q
    ensures 2 * BlockSize(q) <= BlockSize(p)
  {
    Pow2StrictlyMonotone(32 - q, 32 - p);
  }

  /** The host bits of `a` under prefix `p` are all zero. */
  predicate HostBitsClear(a: nat, p: PrefixLen)
  {
    LowBitsClear(a, 32 - p)
  }

  /** A block is a whole power-of-two run of addresses. */
  datatype NetworkBlock = NetworkBlock(networkAddress: Address, prefixLen: PrefixLen)
  {
    function NumAddresses(): (n: nat)
    {
      BlockSize(prefixLen)
    }

    /** The network address has no host bits set, as `ipaddress` keeps it. */
    predicate Normal()
    {
      HostBitsClear(networkAddress, prefixLen)
    }

    /** The last address of the block: network address with all host bits set. */
    function Broadcast(): (b: nat)
    {
      networkAddress + NumAddresses() - 1
    }

    predicate Contains(a: nat)
    {
      networkAddress <= a <= Broadcast()
    }

    /** The block lies inside `outer`: the negation of the out-of-range test. */
    predicate Within(outer: NetworkBlock)
    {
      outer.networkAddress <= networkAddress && Broadcast() <= outer.Broadcast()
    }
  }

  /** A normal block never runs past 255.255.255.255. */
  lemma NormalBlockFits(n: NetworkBlock)
    requires n.Normal()
    ensures n.Broadcast() <= MaxAddress
  {
    Pow2Of32();
    LowBitsClearBelow(n.networkAddress, 32 - n.prefixLen, 32);
  }

  /** The network address of `a` under prefix `p`: `a` with its host bits cleared. */
  function Mask(a: Address, p: PrefixLen): (r: Address)
    ensures r <= a < r + BlockSize(p)
    ensures HostBitsClear(r, p)
  {
    ClearLowBitsClears(a, 32 - p);
    ClearLowBits(a, 32 - p)
  }

  /**
   The block `ipaddress.ip_network(f"{a}/{p}", strict=False)`: the block of
   prefix `p` that holds `a`, whose host bits are dropped rather than refused.
   */
  function IpNetwork(a: Address, p: PrefixLen): (n: NetworkBlock)
    ensures n.prefixLen == p && n.Normal() && n.Contains(a)
    ensures n.Broadcast() <= MaxAddress
  {
    var n := NetworkBlock(Mask(a, p), p);
    NormalBlockFits(n);
    n
  }

  /** Exactly one normal block of each prefix length holds a given address. */
  lemma IpNetworkUnique(a: Address, n: NetworkBlock)
    requires n.Normal() && n.Contains(a)
    ensures IpNetwork(a, n.prefixLen) == n
  {
    ClearLowBitsUnique(n.networkAddress, a, 32 - n.prefixLen);
  }

  /** Masking an address whose host bits are already clear changes nothing. */
  lemma MaskAligned(a: Address, p: PrefixLen)
    requires HostBitsClear(a, p)
    ensures IpNetwork(a, p).networkAddress == a
  {
    IpNetworkUnique(a, NetworkBlock(a, p));
  }

  /** Host bits clear under a prefix stay clear under any longer prefix. */
  lemma AlignedToLonger(a: nat, p: PrefixLen, q: PrefixLen)
    requires p <= q && HostBitsClear(a, p)
    ensures HostBitsClear(a, q)
  {
    LowBitsClearFewer(a, 32 - p, 32 - q);
  }

  /** The address just past a normal block is on that block's boundary. */
  lemma NextBoundary(a: nat, p: PrefixLen)
    requires HostBitsClear(a, p)
    ensures HostBitsClear(a + BlockSize(p), p)
  {
    LowBitsClearStep(a, 32 - p);
  }

  /** A block inside another is no larger, so its prefix is no shorter. */
  lemma WithinHasLongerPrefix(n: NetworkBlock, outer: NetworkBlock)
    requires n.Within(outer)
    ensures outer.prefixLen <= n.prefixLen
  {
    if n.prefixLen < outer.prefixLen {
      Pow2StrictlyMonotone(32 - outer.prefixLen, 32 - n.prefixLen);
    }
  }

  /**
   The addresses `net.hosts()` yields, once each and in ascending order:
   every address but the network and broadcast address, or every address of
   a /31 or /32.
   */
  function Hosts(n: NetworkBlock): (hs: seq<nat>)
    ensures forall a: nat :: a in hs <==>
      (if n.prefixLen < 31 then n.networkAddress < a < n.Broadcast() else n.Contains(a))
    ensures forall i, j :: 0 <= i < j < |hs| ==> hs[i] < hs[j]
  {
    if n.prefixLen < 31 then
      Pow2Monotone(2, 32 - n.prefixLen);
      assert Pow2(2) == 4;
      AddressRun(n.networkAddress + 1, n.NumAddresses() - 2)
    else
      AddressRun(n.networkAddress, n.NumAddresses())
  }

  /** The `count` consecutive addresses starting at `start`. */
  function AddressRun(start: nat, count: nat): (hs: seq<nat>)
    ensures |hs| == count
    ensures forall i :: 0 <= i < count ==> hs[i] == start + i
    ensures forall a: nat :: a in hs <==> start <= a < start + count
  {
    var hs := seq(count, i => start + i);
    forall a: nat | start <= a < start + count
      ensures a in hs
    {
      assert hs[a - start] == a;
    }
    hs
  }

  /** The usable-host count the report prints for a block of prefix `p`. */
  function UsableHostCount(p: PrefixLen): nat
  {
    if p < 31 then
      Pow2Monotone(2, 32 - p);
      assert Pow2(2) == 4;
      BlockSize(p) - 2
    else
      BlockSize(p)
  }

  /** The printed usable-host count is the number of addresses `hosts()` yields. */
  lemma UsableHostCountIsHosts(n: NetworkBlock)
    ensures UsableHostCount(n.prefixLen) == |Hosts(n)|
    ensures n.prefixLen < 31 ==> UsableHostCount(n.prefixLen) == n.NumAddresses() - 2
    ensures n.prefixLen >= 31 ==> UsableHostCount(n.prefixLen) == n.NumAddresses()
  {
  }

  /** The pair `get_usable_range` returns: "N/A" twice, or first and last host. */
  datatype UsableRange = NotApplicable | HostRange(first: Address, last: Address)

  function GetUsableRange(n: NetworkBlock): (r: UsableRange)
    requires n.Normal()
    ensures r.NotApplicable? <==> n.prefixLen >= 31
    ensures r.HostRange? ==> |Hosts(n)| > 0 && r.first == Hosts(n)[0] && r.last == Hosts(n)[|Hosts(n)| - 1]
    ensures r.HostRange? ==> n.networkAddress < r.first <= r.last < n.Broadcast()
    ensures r.HostRange? ==> r.last - r.first + 1 == UsableHostCount(n.prefixLen)
  {
    if n.prefixLen >= 31 then
      NotApplicable
    else
      NormalBlockFits(n);
      Pow2Monotone(2, 32 - n.prefixLen);
      assert Pow2(2) == 4;
      HostRange(n.networkAddress + 1, n.Broadcast() - 1)
  }
}
