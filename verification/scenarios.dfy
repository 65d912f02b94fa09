/**
 Concrete examples of the allocator: three needs on 10.0.0.0/24, the
 sizing table, and the ways a call can end other than with a plan of
 adjacent blocks.
 */
module Scenarios {
  import opened Bits
  import opened Ipv4
  import opened PrefixSizer
  import opened Sorting
  import opened Allocator

  /** 10.0.0.0 */
  const TenNet: Address := 0x0A00_0000

  /** Sizing examples: one host needs a /30, none a /31, 50 a /26, too many a /32. */
  lemma SizingExamples()
    ensures HostsToPrefix(0) == 31
    ensures HostsToPrefix(1) == 30
    ensures HostsToPrefix(5) == 29
    ensures HostsToPrefix(20) == 27
    ensures HostsToPrefix(50) == 26
    ensures HostsToPrefix(MaxHosts) == 1
    ensures HostsToPrefix(MaxHosts + 1) == 32
  {
    HostsToPrefixIff(0, 31);
    HostsToPrefixIff(1, 30);
    HostsToPrefixIff(5, 29);
    HostsToPrefixIff(20, 27);
    HostsToPrefixIff(50, 26);
    CapacityOfOne();
    HostsToPrefixOfCapacity(1);
  }

  /** One placed block, given the loop's result from just past it. */
  lemma PlaceBlock(base: NetworkBlock, cursor: Address, p: PrefixLen, tail: seq<PrefixLen>, block: NetworkBlock, rest: seq<NetworkBlock>)
    requires IpNetwork(cursor, p) == block
    requires block.Within(base) && block.Broadcast() < MaxAddress
    requires Place(base, block.Broadcast() + 1, tail) == Ok(rest)
    ensures Place(base, cursor, [p] + tail) == Ok([block] + rest)
  {
    assert ([p] + tail)[1..] == tail;
    PlaceStep(base, cursor, [p] + tail);
  }

  /** The worked example's base block and the three blocks it is cut into. */
  const Base24 := NetworkBlock(TenNet, 24)
  const Block26 := NetworkBlock(TenNet, 26)
  const Block27 := NetworkBlock(0x0A00_0040, 27)
  const Block29 := NetworkBlock(0x0A00_0060, 29)

  lemma WorkedSort()
    ensures SortDescending([5, 50, 20]) == [50, 20, 5]
  {
    assert multiset([50, 20, 5]) == multiset([5, 50, 20]);
    SortDescendingIsTheDescendingOrder([5, 50, 20], [50, 20, 5]);
  }

  /** The prefixes of three needs, one by one. */
  lemma PrefixesOfThree(a: int, b: int, c: int)
    ensures Prefixes([a, b, c]) == [HostsToPrefix(a), HostsToPrefix(b), HostsToPrefix(c)]
  {
  }

  lemma WorkedPrefixes()
    ensures SortedPrefixes([5, 50, 20]) == [26, 27, 29]
  {
    WorkedSort();
    SizingExamples();
    PrefixesOfThree(50, 20, 5);
  }

  lemma WorkedThird()
    ensures Place(Base24, 0x0A00_0060, [29]) == Ok([Block29])
  {
    IpNetworkUnique(0x0A00_0060, Block29);
    PlaceBlock(Base24, 0x0A00_0060, 29, [], Block29, []);
    assert [29] + [] == [29] && [Block29] + [] == [Block29];
  }

  lemma WorkedSecond()
    ensures Place(Base24, 0x0A00_0040, [27, 29]) == Ok([Block27, Block29])
  {
    WorkedThird();
    IpNetworkUnique(0x0A00_0040, Block27);
    PlaceBlock(Base24, 0x0A00_0040, 27, [29], Block27, [Block29]);
    assert [27] + [29] == [27, 29] && [Block27] + [Block29] == [Block27, Block29];
  }

  lemma WorkedFirst()
    ensures Place(Base24, TenNet, [26, 27, 29]) == Ok([Block26, Block27, Block29])
  {
    WorkedSecond();
    IpNetworkUnique(TenNet, Block26);
    PlaceBlock(Base24, TenNet, 26, [27, 29], Block26, [Block27, Block29]);
    assert [26] + [27, 29] == [26, 27, 29] && [Block26] + [Block27, Block29] == [Block26, Block27, Block29];
  }

  /** 10.0.0.0/24 with needs 5, 50, 20: 10.0.0.0/26, 10.0.0.64/27, 10.0.0.96/29. */
  lemma WorkedExample()
    ensures AllocateSubnets(TenNet, 24, [5, 50, 20]) == Ok([Block26, Block27, Block29])
  {
    IpNetworkUnique(TenNet, Base24);
    WorkedPrefixes();
    WorkedFirst();
  }

  /** 50 hosts do not fit in 10.0.0.0/30: the /26 they need is reported against the base block. */
  lemma OutOfRangeExample()
    ensures AllocateSubnets(TenNet, 30, [50]) ==
      Err(OutOfRange(NetworkBlock(TenNet, 26), NetworkBlock(TenNet, 30)))
  {
    IpNetworkUnique(TenNet, NetworkBlock(TenNet, 30));
    HostsToPrefixIff(50, 26);
    assert SortedPrefixes([50]) == [26];
    IpNetworkUnique(TenNet, NetworkBlock(TenNet, 26));
  }

  /**
   255.255.255.252/30 with one need of 2 hosts: the block fits exactly, but
   the cursor cannot step past 255.255.255.255 after it.
   */
  lemma AddressOverflowExample()
    ensures AllocateSubnets(0xFFFF_FFFC, 30, [2]) ==
      Err(AddressOverflow(NetworkBlock(0xFFFF_FFFC, 30)))
  {
    IpNetworkUnique(0xFFFF_FFFC, NetworkBlock(0xFFFF_FFFC, 30));
    HostsToPrefixIff(2, 30);
    assert SortedPrefixes([2]) == [30];
  }

  /** The whole address space, 0.0.0.0/0. */
  const Everything := NetworkBlock(0, 0)

  lemma EverythingIsNormal()
    ensures Everything.Normal() && Everything.Broadcast() == MaxAddress
  {
    ZeroLowBitsClear(32);
    Pow2Of32();
  }

  lemma PrefixesOfTwo(a: int, b: int)
    ensures Prefixes([a, b]) == [HostsToPrefix(a), HostsToPrefix(b)]
  {
  }

  lemma FallbackPrefixes()
    ensures SortedPrefixes([0x8000_0000, 100]) == [32, 25]
  {
    SortDescendingIsTheDescendingOrder([0x8000_0000, 100], [0x8000_0000, 100]);
    HostsToPrefixIff(100, 25);
    PrefixesOfTwo(0x8000_0000, 100);
  }

  lemma FallbackSecond()
    ensures Place(Everything, 1, [25]) == Ok([NetworkBlock(0, 25)])
  {
    EverythingIsNormal();
    ZeroLowBitsClear(7);
    IpNetworkUnique(1, NetworkBlock(0, 25));
    PlaceBlock(Everything, 1, 25, [], NetworkBlock(0, 25), []);
    assert [25] + [] == [25] && [NetworkBlock(0, 25)] + [] == [NetworkBlock(0, 25)];
  }

  lemma FallbackFirst()
    ensures Place(Everything, 0, [32, 25]) == Ok([NetworkBlock(0, 32), NetworkBlock(0, 25)])
  {
    FallbackSecond();
    EverythingIsNormal();
    IpNetworkUnique(0, NetworkBlock(0, 32));
    PlaceBlock(Everything, 0, 32, [25], NetworkBlock(0, 32), [NetworkBlock(0, 25)]);
    assert [32] + [25] == [32, 25];
    assert [NetworkBlock(0, 32)] + [NetworkBlock(0, 25)] == [NetworkBlock(0, 32), NetworkBlock(0, 25)];
  }

  /**
   A need beyond `MaxHosts` is sized to /32. On 0.0.0.0/0 with needs 2^31
   and 100, the /32 at 0.0.0.0 moves the cursor to 0.0.0.1, masking pulls
   it back to 0.0.0.0 for the /25, and the two blocks overlap.
   */
  lemma FallbackOverlapExample()
    ensures AllocateSubnets(0, 0, [0x8000_0000, 100]) ==
      Ok([NetworkBlock(0, 32), NetworkBlock(0, 25)])
  {
    EverythingIsNormal();
    IpNetworkUnique(0, Everything);
    FallbackPrefixes();
    FallbackFirst();
  }

  /** The plan of the fallback example is not disjoint: 0.0.0.0 is in both blocks. */
  lemma FallbackPlanOverlaps()
    ensures !Disjoint([NetworkBlock(0, 32), NetworkBlock(0, 25)])
  {
    var plan := [NetworkBlock(0, 32), NetworkBlock(0, 25)];
    assert plan[0].Broadcast() >= plan[1].networkAddress;
  }

  /** The usable range of 10.0.0.0/26 is 10.0.0.1 - 10.0.0.62; a /31 has none. */
  lemma UsableRangeExamples()
    ensures GetUsableRange(NetworkBlock(TenNet, 26)) == HostRange(TenNet + 1, TenNet + 62)
    ensures UsableHostCount(26) == 62
    ensures GetUsableRange(NetworkBlock(TenNet, 31)) == NotApplicable
    ensures UsableHostCount(31) == 2
  {
  }
}
