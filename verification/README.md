# VLSM subnet allocator, modelled in Dafny

The model covers the allocation core of `subnetting-automation.py`, a
variable-length subnet mask (VLSM) planner. It works as follows:

- Each host-count requirement becomes the longest prefix whose capacity
  2^(32-p) - 2 covers the count (`hosts_to_prefix`).
- The requirements are sorted largest first.
- One block per requirement is cut from a base block, starting at the base
  network address (`allocate_subnets`). When every need is at most
  2^31 - 2, each block starts just past the previous block's broadcast
  address; see below for larger needs.
- A block that leaves the base block aborts the whole call.
- For reporting, each block has a usable range (`get_usable_range`), a
  usable-host count, and the binary rendering of an address (`ip_to_binary`).

Everything is exact integer arithmetic over IPv4 addresses.

- An address is a natural number up to 2^32 - 1.
- A block (`NetworkBlock`) is a network address plus a prefix length.
- Masking an address to a prefix clears its low 32 - p bits. This is what
  `ipaddress.ip_network(..., strict=False)` does.

Modules, one per file:

- `Bits` (`bits.dfy`): powers of two, and clearing the low bits of a number
  by halving and doubling.
- `Ipv4` (`ipv4.dfy`): addresses, blocks, masking, `hosts()`, the usable
  range and the usable count.
- `PrefixSizer` (`prefix_sizer.dfy`): `hosts_to_prefix`.
- `Sorting` (`sorting.dfy`): `sorted(..., reverse=True)`.
- `Allocator` (`allocator.dfy`): `allocate_subnets`.
- `Binary` (`binary.dfy`): `ip_to_binary`, with a reader for its output.
- `Scenarios` (`scenarios.dfy`) and `BinaryExamples` (`binary_examples.dfy`):
  concrete examples.

### Behaviour worth knowing

- **`hosts_to_prefix` fallback.** When no prefix from /32 down to /1 has the
  capacity, the code returns 32 (line 9), a single-address block, and so
  does the model.
  - An oversized need therefore gets a /32.
  - Take a base shorter than /32 and exactly one oversized need, followed by
    needs from 0 to 2^31 - 2. The oversized need sorts first, so its /32
    takes the base network address, and the cursor lands on the odd address
    after it. The next block spans at least two addresses, its masking pulls
    the cursor back, and that block overlaps the /32.
  - Two oversized needs give two adjacent /32s, which do not overlap.
  - `Scenarios.FallbackOverlapExample` and `Scenarios.FallbackPlanOverlaps`
    show this on 0.0.0.0/0 with needs 2^31 and 100.
- **Cursor realignment.** The code builds each block with
  `ip_network(f"{cursor}/{prefix}", strict=False)` (line 29), which masks the
  cursor to the block's boundary, and so does the model.
  - `Allocator.AllocateContiguous` proves the masking changes nothing when
    every need is at most 2^31 - 2, because the needs are sorted.
- **Top of the address space.** The cursor step
  `subnet.broadcast_address + 1` (line 35) fails in `ipaddress` when the
  broadcast address is 255.255.255.255. It fails even after the last block,
  and even when that block fits the base block. The model returns
  `Err(AddressOverflow(subnet))` there, beside `Err(OutOfRange(subnet, base))`
  for the `ValueError` of lines 31-32.
- **The base block.** It is the parsed pair (address, prefix). The model
  masks the address to the prefix, as `strict=False` does at line 21.

## Model

| member | source | states |
|---|---|---|
| `PrefixSizer.HostsToPrefix` | subnetting-automation.py:5-9 | The result is a prefix in 1..32. For a count up to 2^31 - 2, the block of that prefix has capacity 2^(32-p) - 2 at least the count. For a larger count the result is the fallback 32. |
| `PrefixSizer.SearchDownLongest` | subnetting-automation.py:6-9 | The loop from `p` down to 1 returns the first prefix with enough capacity, and no longer prefix up to `p` has it. Otherwise it returns 32, and no prefix in 1..p has enough capacity. |
| `PrefixSizer.HostsToPrefixLongest` | subnetting-automation.py:5-8 | Minimality: for a count up to 2^31 - 2, no prefix longer than the answer has enough capacity. |
| `PrefixSizer.HostsToPrefixIff` | subnetting-automation.py:5-8 | Both directions, for a count up to 2^31 - 2: `p` is the answer exactly when /p has enough capacity and /(p+1) does not (or p = 32). |
| `PrefixSizer.HostsToPrefixOfCapacity` | subnetting-automation.py:7 | A count equal to the capacity of /p is sized to exactly /p. |
| `PrefixSizer.HostsToPrefixAntitone` | subnetting-automation.py:5-8 | A larger count never gets a longer prefix (counts up to 2^31 - 2). |
| `PrefixSizer.HostsToPrefixCovers` | subnetting-automation.py:5-8 | A count in 0..2^31 - 2 gets a prefix of at most /31, whose usable-host count is at least the count. |
| `Sorting.SortDescending` | subnetting-automation.py:22 | The result is non-increasing and a permutation (same multiset, same length) of the input. |
| `Sorting.NonIncreasingPermutationUnique` | subnetting-automation.py:22 | Two non-increasing permutations of the same values are equal, so the sorted order is fully determined. |
| `Sorting.SortDescendingIsTheDescendingOrder` | subnetting-automation.py:22 | Any non-increasing permutation of the needs is what the sort returns. |
| `Ipv4.IpNetwork` | subnetting-automation.py:29 | The block built from an address and a prefix has that prefix, no host bits set, contains the address, and ends at or below 255.255.255.255. |
| `Ipv4.IpNetworkUnique` | subnetting-automation.py:29 | Any normal block of prefix p that contains an address is the block masking builds from it, so the masked block is the only one. |
| `Ipv4.MaskAligned` | subnetting-automation.py:29 | Masking an address whose host bits are already clear keeps it as the network address. |
| `Ipv4.Hosts` | subnetting-automation.py:17 | The addresses `hosts()` yields, strictly ascending (so the first and last elements are the lowest and highest): for prefixes below /31, exactly those strictly between the network and broadcast addresses; for /31 and /32, every address of the block. |
| `Ipv4.UsableHostCountIsHosts` | subnetting-automation.py:40 | The printed usable count is the number of addresses `hosts()` yields. It is 2^(32-p) - 2 below /31 and 2^(32-p) otherwise. |
| `Ipv4.GetUsableRange` | subnetting-automation.py:14-18 | No range exactly for /31 and /32. Otherwise the range is the first and last of `hosts()`: network + 1 to broadcast - 1, spanning the usable count. |
| `Allocator.Place` | subnetting-automation.py:27-35 | One block per prefix on success. An `OutOfRange` error names a block not inside the base block. An `AddressOverflow` error names a block inside the base block that ends at 255.255.255.255. |
| `Allocator.PlaceFits` | subnetting-automation.py:29-34 | Every block of a successful loop has its prefix, no host bits set, lies inside the base block, and ends below 255.255.255.255. The first block holds the starting cursor. |
| `Allocator.AllocateSubnets` | subnetting-automation.py:20-37 | A successful plan has one block per need. A failure needs at least one need, and no partial list is returned. |
| `Allocator.AllocateFits` | subnetting-automation.py:22-34 | On success, block i has the prefix of need i in largest-first order, is a proper network, and lies inside the base block. |
| `Allocator.PlaceContiguous` | subnetting-automation.py:29-35 | Suppose the cursor is aligned and the prefixes never get shorter. Then the loop's blocks start at the cursor, and each starts right after the previous broadcast address. |
| `Allocator.AllocateContiguous` | subnetting-automation.py:25-35 | With needs up to 2^31 - 2, a successful plan starts at the base network address, is contiguous, and no two blocks overlap: the masking at line 29 never moves the cursor. |
| `Allocator.ContiguousIsDisjoint` | subnetting-automation.py:35 | Blocks that each start just past the previous broadcast address are pairwise disjoint, in increasing order. |
| `Allocator.SortedNeedsHaveNonDecreasingPrefixes` | subnetting-automation.py:22-28 | Needs of at most 2^31 - 2, sorted largest first, get prefixes that never get shorter. |
| `Allocator.TotalSizePermutation` | subnetting-automation.py:22 | The addresses the needs' blocks take up do not depend on their order. |
| `Allocator.PlaceSucceedsIff` | subnetting-automation.py:31-35 | From an aligned cursor with non-decreasing prefixes, the loop succeeds exactly when the blocks fit between the cursor and the end of the base block and do not reach 255.255.255.255. |
| `Allocator.AllocateSucceedsIff` | subnetting-automation.py:20-37 | With needs up to 2^31 - 2, allocation succeeds exactly when the needs' blocks fit the base block in total and do not reach 255.255.255.255. |
| `Allocator.FirstBlockTooLarge` | subnetting-automation.py:31-32 | A largest need whose prefix is shorter than the base prefix makes the call fail, and its blocks exceed the base block. |
| `Binary.IpToBinary` | subnetting-automation.py:11-12 | The rendering is 35 characters, with dots at 8, 17 and 26. Group k is octet k (most significant first) as exactly eight binary digits. |
| `Binary.BinaryDigitsRoundTrip` | subnetting-automation.py:12 | Eight-digit `08b` output of an octet reads back as the octet. |
| `Binary.BinaryValueRoundTrip` | subnetting-automation.py:12 | Any eight binary digits are the `08b` output of the value they read as. |
| `Binary.OctetsRoundTrip` | subnetting-automation.py:12 | The four dotted-quad fields recompose the address. |
| `Binary.IpToBinaryRoundTrip` | subnetting-automation.py:11-12 | Reading the rendering back as binary recovers the address. |
| `Binary.BinaryToIpRoundTrip` | subnetting-automation.py:11-12 | Every string of the rendering's shape is the rendering of the address it reads as. |
| `Scenarios.SizingExamples` | subnetting-automation.py:5-9 | 0 hosts need /31, 1 needs /30, 5 need /29, 20 need /27, 50 need /26, 2^31 - 2 needs /1, and one more falls back to /32. |
| `Scenarios.WorkedExample` | subnetting-automation.py:20-37 | 10.0.0.0/24 with needs 5, 50, 20 gives 10.0.0.0/26, 10.0.0.64/27 and 10.0.0.96/29. |
| `Scenarios.OutOfRangeExample` | subnetting-automation.py:31-32 | 50 hosts on 10.0.0.0/30 fail with the /26 reported against the base block. |
| `Scenarios.AddressOverflowExample` | subnetting-automation.py:35 | 2 hosts on 255.255.255.252/30 fit, but stepping past 255.255.255.255 fails. |
| `Scenarios.FallbackOverlapExample` | subnetting-automation.py:9 | Needs 2^31 and 100 on 0.0.0.0/0 give 0.0.0.0/32 and then 0.0.0.0/25. |
| `Scenarios.FallbackPlanOverlaps` | subnetting-automation.py:29 | Those two blocks overlap. |
| `Scenarios.UsableRangeExamples` | subnetting-automation.py:14-18 | 10.0.0.0/26 has range 10.0.0.1 - 10.0.0.62 and 62 usable hosts; a /31 has no range and 2 usable hosts. |
| `BinaryExamples.IpToBinaryExample` | subnetting-automation.py:11-12 | 192.168.1.0 renders as 11000000.10101000.00000001.00000000. |

## Left out

- `visualize_subnets` (networkx and matplotlib graph rendering): presentation through foreign libraries, with no logic of the core.
- `print_subnet_info` printing, and the dotted-quad, `with_prefixlen` and netmask strings: output formatting. Only the usable-count expression (line 40) and `ip_to_binary` are modelled.
- The interactive `__main__` loop (`input()`, the retry loop, the `isdigit`/`int` filtering of the needs): I/O. Needs arrive as a sequence of integers.
- Parsing the CIDR string with `ipaddress.ip_network`: foreign library. The base arrives parsed as an address and a prefix length.
  - A malformed string is not modelled.
- `Ipv4.GetUsableRange`: line 17 builds `list(net.hosts())`, a list of every usable address, before taking its ends. For large blocks (a need of 2^31 - 2 on 0.0.0.0/0 gives a /1 of about 2^31 addresses) the source runs out of memory or stalls there. The model answers the range directly, without that cost or failure.
- IPv6: `hosts_to_prefix` hard-codes 32 bits, so only IPv4 addresses are modelled.
- `Allocator.AllocateContiguous`, `Allocator.AllocateSucceedsIff`: these require every need to be at most 2^31 - 2. Above that, the /32 fallback breaks the descending-prefix order, and blocks can overlap. `Scenarios.FallbackOverlapExample` shows that case instead.
- `Allocator.Place`: it takes the prefixes of the sorted needs, computed up front. The source calls `hosts_to_prefix` inside the loop; that function is pure and total, so the results are the same.
