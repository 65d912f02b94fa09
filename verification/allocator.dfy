/**
 `allocate_subnets`: sort the host needs largest first, then carve one block
 per need out of the base block, each starting where the previous one ended.

 The loop asks `hosts_to_prefix` for each need's prefix and builds the block
 `ip_network(f"{cursor}/{prefix}", strict=False)`, so the cursor is masked
 down to the block's boundary before use. `hosts_to_prefix` is pure and
 total, so the loop is modelled as the sorted needs' prefixes, computed up
 front, walked by `Place`. Sorting makes the masking harmless: every earlier
 block is a power-of-two multiple of the current one, so the cursor is
 already on the boundary (see `AllocateContiguous`). A block that leaves the
 base block aborts the whole call, and so does stepping the cursor past
 255.255.255.255.
 */
module Allocator {
  import opened Bits
  import opened Ipv4
  import opened PrefixSizer
  import opened Sorting

  datatype Result<T, E> = Ok(value: T) | Err(error: E)

  datatype AllocError =
    /** A block reached outside the base block: the `ValueError` of the range test. */
    | OutOfRange(subnet: NetworkBlock, base: NetworkBlock)
    /** A block ended at 255.255.255.255, so the cursor cannot step past it. */
    | AddressOverflow(subnet: NetworkBlock)

  /** The prefix `hosts_to_prefix` picks for each need, in order. */
  function Prefixes(needs: seq<int>): (ps: seq<PrefixLen>)
    ensures |ps| == |needs|
    ensures forall i :: 0 <= i < |needs| ==> ps[i] == HostsToPrefix(needs[i])
  {
    seq(|needs|, i requires 0 <= i < |needs| => HostsToPrefix(needs[i]))
  }

  /** The allocation loop, from `cursor` on, over the prefixes of the needs in visiting order. */
  function Place(base: NetworkBlock, cursor: Address, ps: seq<PrefixLen>): (r: Result<seq<NetworkBlock>, AllocError>)
    ensures r.Ok? ==> |r.value| == |ps|
    ensures r.Err? ==> |ps| > 0
    ensures r.Err? && r.error.OutOfRange? ==> r.error.base == base && !r.error.subnet.Within(base)
    ensures r.Err? && r.error.AddressOverflow? ==>
      r.error.subnet.Within(base) && r.error.subnet.Broadcast() == MaxAddress
    decreases |ps|
  {
    if ps == [] then
      Ok([])
    else
      var subnet := IpNetwork(cursor, ps[0]);
      if subnet.networkAddress < base.networkAddress || subnet.Broadcast() > base.Broadcast() then
        Err(OutOfRange(subnet, base))
      else if subnet.Broadcast() == MaxAddress then
        Err(AddressOverflow(subnet))
      else
        match Place(base, subnet.Broadcast() + 1, ps[1..])
        case Ok(rest) => Ok([subnet] + rest)
        case Err(e) => Err(e)
  }

  /** One turn of the loop: the first block, then the rest from just past it. */
  lemma PlaceStep(base: NetworkBlock, cursor: Address, ps: seq<PrefixLen>)
    requires ps != []
    ensures var subnet := IpNetwork(cursor, ps[0]);
      if subnet.Within(base) && subnet.Broadcast() < MaxAddress then
        var rest := Place(base, subnet.Broadcast() + 1, ps[1..]);
        && (Place(base, cursor, ps).Ok? <==> rest.Ok?)
        && (rest.Ok? ==> Place(base, cursor, ps).value == [subnet] + rest.value)
      else
        Place(base, cursor, ps).Err?
  {
  }

  /** A successful loop placed its first block and then succeeded from just past it. */
  lemma PlaceOkStep(base: NetworkBlock, cursor: Address, ps: seq<PrefixLen>)
    requires ps != [] && Place(base, cursor, ps).Ok?
    ensures var subnet := IpNetwork(cursor, ps[0]);
      && subnet.Within(base) && subnet.Broadcast() < MaxAddress
      && Place(base, subnet.Broadcast() + 1, ps[1..]).Ok?
      && Place(base, cursor, ps).value == [subnet] + Place(base, subnet.Broadcast() + 1, ps[1..]).value
  {
    PlaceStep(base, cursor, ps);
  }

  /**
   A plan that answers prefixes `ps` inside `base`: one block per prefix, of
   that prefix, each a proper network inside the base block and ending below
   255.255.255.255.
   */
  predicate PlanFits(base: NetworkBlock, ps: seq<PrefixLen>, plan: seq<NetworkBlock>)
  {
    && |plan| == |ps|
    && forall i :: 0 <= i < |plan| ==>
      && plan[i].prefixLen == ps[i]
      && plan[i].Normal()
      && plan[i].Within(base)
      && plan[i].Broadcast() < MaxAddress
  }

  lemma PlanFitsCons(base: NetworkBlock, ps: seq<PrefixLen>, subnet: NetworkBlock, rest: seq<NetworkBlock>)
    requires ps != [] && PlanFits(base, ps[1..], rest)
    requires subnet.prefixLen == ps[0] && subnet.Normal()
    requires subnet.Within(base) && subnet.Broadcast() < MaxAddress
    ensures PlanFits(base, ps, [subnet] + rest)
  {
    var plan := [subnet] + rest;
    forall i | 0 < i < |plan|
      ensures plan[i] == rest[i - 1] && ps[i] == ps[1..][i - 1]
    {
    }
  }

  /**
   Whatever the loop returns answers every prefix inside the base block, and
   its first block holds the cursor it started from.
   */
  lemma {:induction false} PlaceFits(base: NetworkBlock, cursor: Address, ps: seq<PrefixLen>)
    ensures Place(base, cursor, ps).Ok? ==> PlanFits(base, ps, Place(base, cursor, ps).value)
    ensures Place(base, cursor, ps).Ok? && |ps| > 0 ==> Place(base, cursor, ps).value[0].Contains(cursor)
    decreases |ps|
  {
    if ps != [] && Place(base, cursor, ps).Ok? {
      var subnet := IpNetwork(cursor, ps[0]);
      PlaceOkStep(base, cursor, ps);
      var next := subnet.Broadcast() + 1;
      PlaceFits(base, next, ps[1..]);
      PlanFitsCons(base, ps, subnet, Place(base, next, ps[1..]).value);
    }
  }

  /** The prefixes the allocation walks: those of the needs sorted largest first. */
  function SortedPrefixes(hostNeeds: seq<int>): (ps: seq<PrefixLen>)
  {
    Prefixes(SortDescending(hostNeeds))
  }

  /**
   `allocate_subnets(base_cidr, host_needs)` with the base already parsed into
   an address and a prefix length; the base block is that address masked to
   the prefix.
   */
  function AllocateSubnets(baseAddress: Address, basePrefix: PrefixLen, hostNeeds: seq<int>)
    : (r: Result<seq<NetworkBlock>, AllocError>)
    ensures r.Ok? ==> |r.value| == |hostNeeds|
    ensures r.Err? ==> |hostNeeds| > 0
  {
    var base := IpNetwork(baseAddress, basePrefix);
    Place(base, base.networkAddress, SortedPrefixes(hostNeeds))
  }

  /**
   A successful allocation gives need `i` of the needs sorted largest first a
   block of that need's prefix: a proper network inside the base block.
   */
  lemma AllocateFits(baseAddress: Address, basePrefix: PrefixLen, hostNeeds: seq<int>)
    ensures AllocateSubnets(baseAddress, basePrefix, hostNeeds).Ok? ==>
      var plan := AllocateSubnets(baseAddress, basePrefix, hostNeeds).value;
      var sorted := SortDescending(hostNeeds);
      && |plan| == |sorted|
      && forall i :: 0 <= i < |plan| ==>
        && plan[i].prefixLen == HostsToPrefix(sorted[i])
        && plan[i].Normal()
        && plan[i].Within(IpNetwork(baseAddress, basePrefix))
  {
    var base := IpNetwork(baseAddress, basePrefix);
    PlaceFits(base, base.networkAddress, SortedPrefixes(hostNeeds));
  }

  /** Each block starts right after the previous one's broadcast address. */
  predicate Contiguous(subnets: seq<NetworkBlock>)
  {
    forall i :: 0 <= i < |subnets| - 1 ==> subnets[i + 1].networkAddress == subnets[i].Broadcast() + 1
  }

  /** No two blocks share an address; earlier blocks lie lower. */
  predicate Disjoint(subnets: seq<NetworkBlock>)
  {
    forall i, j :: 0 <= i < j < |subnets| ==> subnets[i].Broadcast() < subnets[j].networkAddress
  }

  lemma {:induction false} ContiguousIsDisjoint(subnets: seq<NetworkBlock>)
    requires Contiguous(subnets)
    ensures Disjoint(subnets)
  {
    if |subnets| > 1 {
      var init := subnets[..|subnets| - 1];
      assert Contiguous(init);
      ContiguousIsDisjoint(init);
      var last := |subnets| - 1;
      forall i | 0 <= i < last
        ensures subnets[i].Broadcast() < subnets[last].networkAddress
      {
        if i < last - 1 {
          assert init[i].Broadcast() < init[last - 1].networkAddress;
        }
      }
    }
  }

  /** Prefixes that never get shorter along the sequence: blocks never get larger. */
  predicate NonDecreasing(ps: seq<PrefixLen>)
  {
    forall i, j :: 0 <= i < j < |ps| ==> ps[i] <= ps[j]
  }

  /** Needs sorted largest first, none beyond `MaxHosts`, get ever longer prefixes. */
  lemma SortedNeedsHaveNonDecreasingPrefixes(needs: seq<int>)
    requires NonIncreasing(needs)
    requires forall i :: 0 <= i < |needs| ==> needs[i] <= MaxHosts
    ensures NonDecreasing(Prefixes(needs))
  {
    var ps := Prefixes(needs);
    forall i, j | 0 <= i < j < |ps|
      ensures ps[i] <= ps[j]
    {
      HostsToPrefixAntitone(needs[j], needs[i]);
    }
  }

  /** Every value of the sorted needs is one of the needs. */
  lemma SortedNeedsBounded(hostNeeds: seq<int>)
    requires forall i :: 0 <= i < |hostNeeds| ==> hostNeeds[i] <= MaxHosts
    ensures forall i :: 0 <= i < |SortDescending(hostNeeds)| ==> SortDescending(hostNeeds)[i] <= MaxHosts
  {
    var sorted := SortDescending(hostNeeds);
    forall i | 0 <= i < |sorted|
      ensures sorted[i] <= MaxHosts
    {
      assert sorted[i] in multiset(hostNeeds);
    }
  }

  /** With every need at most `MaxHosts`, the sorted needs' prefixes never get shorter. */
  lemma SortedPrefixesNonDecreasing(hostNeeds: seq<int>)
    requires forall i :: 0 <= i < |hostNeeds| ==> hostNeeds[i] <= MaxHosts
    ensures NonDecreasing(SortedPrefixes(hostNeeds))
  {
    SortedNeedsBounded(hostNeeds);
    SortedNeedsHaveNonDecreasingPrefixes(SortDescending(hostNeeds));
  }

  /**
   From a cursor on the first block's boundary, with prefixes never getting
   shorter, masking leaves every cursor where it is: the blocks start at the
   cursor and follow one another without gaps.
   */
  lemma {:induction false} PlaceContiguous(base: NetworkBlock, cursor: Address, ps: seq<PrefixLen>)
    requires NonDecreasing(ps)
    requires |ps| > 0 ==> HostBitsClear(cursor, ps[0])
    ensures Place(base, cursor, ps).Ok? ==>
      && Contiguous(Place(base, cursor, ps).value)
      && (|ps| > 0 ==> Place(base, cursor, ps).value[0].networkAddress == cursor)
    decreases |ps|
  {
    if ps != [] && Place(base, cursor, ps).Ok? {
      var subnet := IpNetwork(cursor, ps[0]);
      AlignedStep(cursor, ps);
      PlaceOkStep(base, cursor, ps);
      var next := subnet.Broadcast() + 1;
      PlaceContiguous(base, next, ps[1..]);
      ContiguousCons(subnet, Place(base, next, ps[1..]).value);
    }
  }

  /**
   One turn of the loop from an aligned cursor: masking keeps the cursor,
   and the next cursor is aligned for the next prefix.
   */
  lemma AlignedStep(cursor: Address, ps: seq<PrefixLen>)
    requires ps != [] && NonDecreasing(ps)
    requires HostBitsClear(cursor, ps[0])
    ensures var subnet := IpNetwork(cursor, ps[0]);
      && subnet.networkAddress == cursor
      && subnet.Broadcast() == cursor + BlockSize(ps[0]) - 1
      && NonDecreasing(ps[1..])
      && (|ps| > 1 ==> HostBitsClear(subnet.Broadcast() + 1, ps[1..][0]))
  {
    MaskAligned(cursor, ps[0]);
    if |ps| > 1 {
      NextCursorAligned(cursor, ps[0], ps[1]);
    }
  }

  /** The cursor just past an aligned block is aligned for any block no larger. */
  lemma NextCursorAligned(cursor: nat, p: PrefixLen, q: PrefixLen)
    requires p <= q && HostBitsClear(cursor, p)
    ensures HostBitsClear(cursor + BlockSize(p), q)
  {
    NextBoundary(cursor, p);
    AlignedToLonger(cursor + BlockSize(p), p, q);
  }

  lemma ContiguousCons(subnet: NetworkBlock, rest: seq<NetworkBlock>)
    requires Contiguous(rest)
    requires |rest| > 0 ==> rest[0].networkAddress == subnet.Broadcast() + 1
    ensures Contiguous([subnet] + rest)
  {
    var plan := [subnet] + rest;
    forall i | 0 <= i < |plan| - 1
      ensures plan[i + 1].networkAddress == plan[i].Broadcast() + 1
    {
      if i > 0 {
        assert plan[i] == rest[i - 1] && plan[i + 1] == rest[i];
      }
    }
  }

  /** A non-empty successful plan's first block has a prefix at least the base's. */
  lemma FirstPrefixAtLeastBase(baseAddress: Address, basePrefix: PrefixLen, hostNeeds: seq<int>)
    requires AllocateSubnets(baseAddress, basePrefix, hostNeeds).Ok? && |hostNeeds| > 0
    ensures basePrefix <= SortedPrefixes(hostNeeds)[0]
    ensures HostBitsClear(IpNetwork(baseAddress, basePrefix).networkAddress, SortedPrefixes(hostNeeds)[0])
  {
    var base := IpNetwork(baseAddress, basePrefix);
    PlaceFits(base, base.networkAddress, SortedPrefixes(hostNeeds));
    var first := AllocateSubnets(baseAddress, basePrefix, hostNeeds).value[0];
    WithinHasLongerPrefix(first, base);
    AlignedToLonger(base.networkAddress, basePrefix, first.prefixLen);
  }

  /**
   With every need at most `MaxHosts`, a successful plan starts at the base
   block's network address, each block starts right after the previous one,
   and no two blocks overlap.
   */
  lemma AllocateContiguous(baseAddress: Address, basePrefix: PrefixLen, hostNeeds: seq<int>)
    requires forall i :: 0 <= i < |hostNeeds| ==> hostNeeds[i] <= MaxHosts
    ensures AllocateSubnets(baseAddress, basePrefix, hostNeeds).Ok? ==>
      var plan := AllocateSubnets(baseAddress, basePrefix, hostNeeds).value;
      && Contiguous(plan)
      && Disjoint(plan)
      && (|plan| > 0 ==> plan[0].networkAddress == IpNetwork(baseAddress, basePrefix).networkAddress)
  {
    var r := AllocateSubnets(baseAddress, basePrefix, hostNeeds);
    if r.Ok? {
      var base := IpNetwork(baseAddress, basePrefix);
      SortedPrefixesNonDecreasing(hostNeeds);
      if |hostNeeds| > 0 {
        FirstPrefixAtLeastBase(baseAddress, basePrefix, hostNeeds);
      }
      PlaceContiguous(base, base.networkAddress, SortedPrefixes(hostNeeds));
      ContiguousIsDisjoint(r.value);
    }
  }

  /** Addresses the block for one need takes up. */
  function Demand(hosts: int): (n: nat)
  {
    BlockSize(HostsToPrefix(hosts))
  }

  /** Addresses the blocks for `needs` take up together. */
  function TotalSize(needs: seq<int>): (n: nat)
  {
    if needs == [] then 0 else Demand(needs[0]) + TotalSize(needs[1..])
  }

  /** Addresses blocks of prefixes `ps` take up together. */
  function Span(ps: seq<PrefixLen>): (n: nat)
  {
    if ps == [] then 0 else BlockSize(ps[0]) + Span(ps[1..])
  }

  /** The blocks of the needs' prefixes take up the needs' total demand. */
  lemma {:induction false} SpanOfPrefixes(needs: seq<int>)
    ensures Span(Prefixes(needs)) == TotalSize(needs)
  {
    if needs != [] {
      assert Prefixes(needs)[1..] == Prefixes(needs[1..]);
      SpanOfPrefixes(needs[1..]);
    }
  }

  lemma {:induction false} TotalSizeAppend(a: seq<int>, b: seq<int>)
    ensures TotalSize(a + b) == TotalSize(a) + TotalSize(b)
  {
    if a == [] {
      assert a + b == b;
    } else {
      assert (a + b)[0] == a[0];
      assert (a + b)[1..] == a[1..] + b;
      TotalSizeAppend(a[1..], b);
    }
  }

  /** Taking one need out of the middle takes its demand out of the total. */
  lemma TotalSizeRemove(b: seq<int>, j: nat)
    requires j < |b|
    ensures TotalSize(b) == Demand(b[j]) + TotalSize(b[..j] + b[j + 1..])
  {
    var single := b[j..];
    assert b == b[..j] + single;
    assert single == [b[j]] + b[j + 1..];
    TotalSizeAppend(b[..j], single);
    TotalSizeAppend(b[..j], b[j + 1..]);
  }

  /** Dropping equal elements from two rearrangements leaves rearrangements. */
  lemma MultisetRemoveMatching(a: seq<int>, b: seq<int>, j: nat)
    requires multiset(a) == multiset(b) && a != [] && j < |b| && b[j] == a[0]
    ensures multiset(a[1..]) == multiset(b[..j] + b[j + 1..])
  {
    assert b == b[..j] + [b[j]] + b[j + 1..];
    assert a == [a[0]] + a[1..];
    assert multiset(b[..j] + b[j + 1..]) == multiset(b) - multiset{a[0]};
    assert multiset(a[1..]) == multiset(a) - multiset{a[0]};
  }

  /** The demand does not depend on the order of the needs. */
  lemma {:induction false} TotalSizePermutation(a: seq<int>, b: seq<int>)
    requires multiset(a) == multiset(b)
    ensures TotalSize(a) == TotalSize(b)
  {
    if a == [] {
      assert |b| == |multiset(b)| == 0;
    } else {
      assert a[0] in multiset(b);
      var j :| 0 <= j < |b| && b[j] == a[0];
      var b' := b[..j] + b[j + 1..];
      MultisetRemoveMatching(a, b, j);
      TotalSizePermutation(a[1..], b');
      TotalSizeRemove(b, j);
    }
  }

  /**
   From an aligned cursor inside the base block, with prefixes never getting
   shorter, the loop succeeds exactly when the blocks fit between the cursor
   and the base block's end, and do not end at 255.255.255.255.
   */
  lemma {:induction false} PlaceSucceedsIff(base: NetworkBlock, cursor: Address, ps: seq<PrefixLen>)
    requires NonDecreasing(ps)
    requires |ps| > 0 ==> HostBitsClear(cursor, ps[0])
    requires base.networkAddress <= cursor <= base.Broadcast() + 1
    ensures Place(base, cursor, ps).Ok? <==>
      && cursor + Span(ps) <= base.Broadcast() + 1
      && (ps == [] || cursor + Span(ps) <= MaxAddress)
    decreases |ps|
  {
    if ps != [] {
      var subnet := IpNetwork(cursor, ps[0]);
      AlignedStep(cursor, ps);
      PlaceStep(base, cursor, ps);
      if subnet.Within(base) && subnet.Broadcast() < MaxAddress {
        PlaceSucceedsIff(base, subnet.Broadcast() + 1, ps[1..]);
      }
    }
  }

  /**
   With every need at most `MaxHosts`, allocation succeeds exactly when the
   blocks the needs ask for fit in the base block in total, and do not end
   at 255.255.255.255.
   */
  lemma AllocateSucceedsIff(baseAddress: Address, basePrefix: PrefixLen, hostNeeds: seq<int>)
    requires forall i :: 0 <= i < |hostNeeds| ==> hostNeeds[i] <= MaxHosts
    ensures AllocateSubnets(baseAddress, basePrefix, hostNeeds).Ok? <==>
      && TotalSize(hostNeeds) <= BlockSize(basePrefix)
      && (hostNeeds == [] || IpNetwork(baseAddress, basePrefix).networkAddress + TotalSize(hostNeeds) <= MaxAddress)
  {
    var base := IpNetwork(baseAddress, basePrefix);
    var ps := SortedPrefixes(hostNeeds);
    TotalSizePermutation(SortDescending(hostNeeds), hostNeeds);
    SpanOfPrefixes(SortDescending(hostNeeds));
    if ps != [] {
      if ps[0] < basePrefix {
        FirstBlockTooLarge(baseAddress, basePrefix, hostNeeds);
      } else {
        SortedPrefixesNonDecreasing(hostNeeds);
        AlignedToLonger(base.networkAddress, basePrefix, ps[0]);
        PlaceSucceedsIff(base, base.networkAddress, ps);
      }
    }
  }

  /**
   When the largest need asks for a shorter prefix than the base block's,
   the allocation fails and the blocks asked for exceed the base block.
   */
  lemma FirstBlockTooLarge(baseAddress: Address, basePrefix: PrefixLen, hostNeeds: seq<int>)
    requires hostNeeds != [] && SortedPrefixes(hostNeeds)[0] < basePrefix
    ensures AllocateSubnets(baseAddress, basePrefix, hostNeeds).Err?
    ensures Span(SortedPrefixes(hostNeeds)) > BlockSize(basePrefix)
  {
    var ps := SortedPrefixes(hostNeeds);
    BlockSizeStrictlyDecreasing(ps[0], basePrefix);
    if AllocateSubnets(baseAddress, basePrefix, hostNeeds).Ok? {
      FirstPrefixAtLeastBase(baseAddress, basePrefix, hostNeeds);
    }
  }
}
