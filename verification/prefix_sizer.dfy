/**
 `hosts_to_prefix`: the longest prefix (smallest block) whose capacity
 2^(32 - p) - 2 covers a host count. The search tries /32, /31, ..., /1 in
 that order and stops at the first prefix that is large enough; when none
 is, it answers /32, a single-address block.
 */
module PrefixSizer {
  import opened Bits
  import opened Ipv4

  /** The largest host count any prefix in /1 .. /32 can cover: 2^31 - 2. */
  const MaxHosts: int := 0x7FFF_FFFE

  /** The value the search compares a host count against: 2^(32 - p) - 2. */
  function Capacity(p: PrefixLen): (c: int)
  {
    BlockSize(p) - 2
  }

  lemma CapacityStrictlyDecreasing(p: PrefixLen, q: PrefixLen)
    requires p < q
    ensures Capacity(q) < Capacity(p)
  {
    Pow2StrictlyMonotone(32 - q, 32 - p);
  }

  lemma CapacityOfOne()
    ensures Capacity(1) == MaxHosts
  {
    assert Pow2(8) == 256;
    assert Pow2(16) == 65536;
    assert Pow2(24) == 16777216;
  }

  /** No prefix in /1 .. /32 has a capacity above `MaxHosts`. */
  lemma CapacityAtMostMaxHosts()
    ensures forall q: PrefixLen :: 1 <= q ==> Capacity(q) <= MaxHosts
  {
    CapacityOfOne();
    forall q: PrefixLen | 1 < q
      ensures Capacity(q) <= MaxHosts
    {
      CapacityStrictlyDecreasing(1, q);
    }
  }

  /**
   The loop from prefix `p` down to /1: the first prefix whose capacity
   covers `hosts`, or /32 when none does.
   */
  function SearchDown(hosts: int, p: PrefixLen): (r: PrefixLen)
    requires p >= 1
    ensures 1 <= r
    ensures (r <= p && Capacity(r) >= hosts) || r == 32
    decreases p
  {
    if Capacity(p) >= hosts then p
    else if p == 1 then 32
    else SearchDown(hosts, p - 1)
  }

  /**
   The search answers the longest prefix at most `p` that is large enough,
   or /32 when none in /1 .. /p is.
   */
  lemma {:induction false} SearchDownLongest(hosts: int, p: PrefixLen)
    requires p >= 1
    ensures var r := SearchDown(hosts, p);
      || (r <= p && Capacity(r) >= hosts && forall q: PrefixLen :: r < q <= p ==> Capacity(q) < hosts)
      || (r == 32 && forall q: PrefixLen :: 1 <= q <= p ==> Capacity(q) < hosts)
    decreases p
  {
    if Capacity(p) < hosts && p > 1 {
      SearchDownLongest(hosts, p - 1);
    }
  }

  function HostsToPrefix(hosts: int): (p: PrefixLen)
    ensures 1 <= p
    ensures hosts <= MaxHosts ==> Capacity(p) >= hosts
    ensures hosts > MaxHosts ==> p == 32
  {
    SearchDownLongest(hosts, 32);
    CapacityOfOne();
    CapacityAtMostMaxHosts();
    SearchDown(hosts, 32)
  }

  /**
   For a host count some prefix can hold, the answer is the longest prefix
   that holds it: no longer prefix has the capacity.
   */
  lemma HostsToPrefixLongest(hosts: int)
    requires hosts <= MaxHosts
    ensures forall q: PrefixLen :: HostsToPrefix(hosts) < q ==> Capacity(q) < hosts
  {
    SearchDownLongest(hosts, 32);
    CapacityOfOne();
  }

  /**
   Both directions: `p` is the answer for `hosts` exactly when /p holds
   `hosts` and /(p+1) does not.
   */
  lemma HostsToPrefixIff(hosts: int, p: PrefixLen)
    requires hosts <= MaxHosts && p >= 1
    ensures HostsToPrefix(hosts) == p <==> Capacity(p) >= hosts && (p == 32 || Capacity(p + 1) < hosts)
  {
    HostsToPrefixLongest(hosts);
    var r := HostsToPrefix(hosts);
    if Capacity(p) >= hosts && (p == 32 || Capacity(p + 1) < hosts) {
      if r > p {
        CapacityStrictlyDecreasing(p + 1, r);
      }
    }
  }

  /** A host count that is exactly the capacity of /p is sized to /p. */
  lemma HostsToPrefixOfCapacity(p: PrefixLen)
    requires p >= 1
    ensures HostsToPrefix(Capacity(p)) == p
  {
    CapacityOfOne();
    if p > 1 {
      CapacityStrictlyDecreasing(1, p);
    }
    HostsToPrefixLongest(Capacity(p));
    var r := HostsToPrefix(Capacity(p));
    if r > p {
      CapacityStrictlyDecreasing(p, r);
    }
  }

  /** More hosts never get a longer prefix (as long as some prefix fits them). */
  lemma HostsToPrefixAntitone(h1: int, h2: int)
    requires h1 <= h2 <= MaxHosts
    ensures HostsToPrefix(h2) <= HostsToPrefix(h1)
  {
    HostsToPrefixLongest(h1);
  }

  /**
   A non-negative host count up to `MaxHosts` gets a prefix of at most /31,
   and a block of that prefix has at least that many usable hosts.
   */
  lemma HostsToPrefixCovers(hosts: int)
    requires 0 <= hosts <= MaxHosts
    ensures HostsToPrefix(hosts) <= 31
    ensures UsableHostCount(HostsToPrefix(hosts)) >= hosts
  {
  }
}
