/**
 `ip_to_binary`: an address written as its four octets, most significant
 first, each as exactly eight binary digits, joined by dots, as in
 `11000000.10101000.00000001.00000000` for 192.168.1.0. An octet is below
 256, so the `08b` format never needs more than eight digits and always
 pads to eight.
 */
module Binary {
  import opened Bits
  import opened Ipv4

  /** An octet, 0 .. 255. */
  type Octet = n: nat | n < 256

  /** The four octets of an address, most significant first: the dotted-quad fields. */
  function Octets(a: Address): (os: seq<Octet>)
    ensures |os| == 4
  {
    [a / 0x100_0000, (a / 0x1_0000) % 0x100, (a / 0x100) % 0x100, a % 0x100]
  }

  /** The address whose dotted-quad fields are `os`. */
  function FromOctets(os: seq<Octet>): (a: Address)
    requires |os| == 4
  {
    (os[0] as nat) * 0x100_0000 + (os[1] as nat) * 0x1_0000 + (os[2] as nat) * 0x100 + os[3]
  }

  /** Splitting an address into octets and putting them back gives the address. */
  lemma OctetsRoundTrip(a: Address)
    ensures FromOctets(Octets(a)) == a
  {
    var hi := a / 0x100;
    assert a == hi * 0x100 + a % 0x100;
    var mid := hi / 0x100;
    assert hi == mid * 0x100 + hi % 0x100;
    assert hi % 0x100 == (a / 0x100) % 0x100;
    assert mid == a / 0x1_0000;
    assert mid == (a / 0x100_0000) * 0x100 + mid % 0x100;
    assert mid / 0x100 == a / 0x100_0000;
  }

  /** Putting octets together and splitting the address again gives the octets. */
  lemma OctetsOfFromOctets(os: seq<Octet>)
    requires |os| == 4
    ensures Octets(FromOctets(os)) == os
  {
    var a := FromOctets(os);
    assert a / 0x100 == (os[0] as nat) * 0x1_0000 + (os[1] as nat) * 0x100 + os[2];
    assert a / 0x1_0000 == (os[0] as nat) * 0x100 + os[1];
    assert a / 0x100_0000 == os[0];
  }

  predicate IsBit(c: char)
  {
    c == '0' || c == '1'
  }

  /** `n` as exactly `width` binary digits, most significant first (`f"{n:0{width}b}"` when `n < 2^width`). */
  function BinaryDigits(n: nat, width: nat): (s: seq<char>)
    ensures |s| == width && AllBits(s)
  {
    if width == 0 then []
    else BinaryDigits(n / 2, width - 1) + [if n % 2 == 0 then '0' else '1']
  }

  /** Reading a string of binary digits, most significant first. */
  function BinaryValue(s: seq<char>): nat
  {
    if s == [] then 0
    else 2 * BinaryValue(s[..|s| - 1]) + (if s[|s| - 1] == '1' then 1 else 0)
  }

  lemma {:induction false} BinaryValueBound(s: seq<char>)
    ensures BinaryValue(s) < Pow2(|s|)
  {
    if s != [] {
      BinaryValueBound(s[..|s| - 1]);
    }
  }

  /** Digits written for a number that fits in `width` bits read back as that number. */
  lemma {:induction false} BinaryDigitsRoundTrip(n: nat, width: nat)
    requires n < Pow2(width)
    ensures BinaryValue(BinaryDigits(n, width)) == n
  {
    if width > 0 {
      BinaryDigitsRoundTrip(n / 2, width - 1);
      var s := BinaryDigits(n, width);
      assert s[..|s| - 1] == BinaryDigits(n / 2, width - 1);
    }
  }

  /** Binary digits read as a number and written back at the same width are unchanged. */
  lemma {:induction false} BinaryValueRoundTrip(s: seq<char>)
    requires AllBits(s)
    ensures BinaryDigits(BinaryValue(s), |s|) == s
  {
    if s != [] {
      var init := s[..|s| - 1];
      BinaryValueRoundTrip(init);
      var v := BinaryValue(s);
      assert v / 2 == BinaryValue(init);
      assert s == init + [s[|s| - 1]];
    }
  }

  /** One octet in the `08b` format. */
  function OctetBits(o: Octet): (s: seq<char>)
    ensures |s| == 8 && AllBits(s)
  {
    BinaryDigits(o, 8)
  }

  predicate AllBits(g: seq<char>)
  {
    forall i :: 0 <= i < |g| ==> IsBit(g[i])
  }

  /** Group `k` (0 .. 3) of a 35-character string: the eight characters after `k` groups and dots. */
  function Group(s: seq<char>, k: nat): seq<char>
    requires k < 4 && |s| == 35
  {
    s[9 * k .. 9 * k + 8]
  }

  /** `'.'.join` of four groups. */
  function Join(g0: seq<char>, g1: seq<char>, g2: seq<char>, g3: seq<char>): seq<char>
  {
    g0 + "." + g1 + "." + g2 + "." + g3
  }

  /** Joining four eight-character groups puts them, and the dots, at fixed places. */
  lemma JoinGroups(g0: seq<char>, g1: seq<char>, g2: seq<char>, g3: seq<char>)
    requires |g0| == 8 && |g1| == 8 && |g2| == 8 && |g3| == 8
    ensures var s := Join(g0, g1, g2, g3);
      && |s| == 35
      && s[8] == '.' && s[17] == '.' && s[26] == '.'
      && Group(s, 0) == g0 && Group(s, 1) == g1 && Group(s, 2) == g2 && Group(s, 3) == g3
  {
    var s := Join(g0, g1, g2, g3);
    assert s == g0 + ("." + (g1 + ("." + (g2 + ("." + g3)))));
    assert s[9..] == g1 + ("." + (g2 + ("." + g3)));
    assert s[18..] == g2 + ("." + g3);
    assert s[27..] == g3;
  }

  /** A 35-character string with dots at the group boundaries is the join of its groups. */
  lemma SplitGroups(s: seq<char>)
    requires |s| == 35 && s[8] == '.' && s[17] == '.' && s[26] == '.'
    ensures s == Join(Group(s, 0), Group(s, 1), Group(s, 2), Group(s, 3))
  {
    assert s == s[..8] + [s[8]] + s[9..17] + [s[17]] + s[18..26] + [s[26]] + s[27..];
  }

  /** `ip_to_binary(a)`: the four octets' eight-digit groups joined by dots. */
  function IpToBinary(a: Address): (s: seq<char>)
    ensures |s| == 35
    ensures s[8] == '.' && s[17] == '.' && s[26] == '.'
    ensures forall k :: 0 <= k < 4 ==> Group(s, k) == OctetBits(Octets(a)[k])
  {
    var os := Octets(a);
    JoinGroups(OctetBits(os[0]), OctetBits(os[1]), OctetBits(os[2]), OctetBits(os[3]));
    Join(OctetBits(os[0]), OctetBits(os[1]), OctetBits(os[2]), OctetBits(os[3]))
  }

  /** A string of the `ip_to_binary` shape: four groups of eight binary digits separated by dots. */
  predicate BinaryAddressShape(s: seq<char>)
  {
    && |s| == 35
    && s[8] == '.' && s[17] == '.' && s[26] == '.'
    && forall k :: 0 <= k < 4 ==> AllBits(Group(s, k))
  }

  datatype Option<T> = None | Some(value: T)

  /** An eight-character group read as an octet. */
  function GroupOctet(g: seq<char>): (o: Octet)
    requires |g| == 8
  {
    BinaryValueBound(g);
    assert Pow2(8) == 256;
    BinaryValue(g)
  }

  /**
   Reads an `ip_to_binary` string back: each group is an octet's binary
   digits. Anything not of the shape reads as `None`.
   */
  function BinaryToIp(s: seq<char>): (r: Option<Address>)
    ensures r.Some? <==> BinaryAddressShape(s)
  {
    if !BinaryAddressShape(s) then None
    else Some(FromOctets([GroupOctet(Group(s, 0)), GroupOctet(Group(s, 1)), GroupOctet(Group(s, 2)), GroupOctet(Group(s, 3))]))
  }

  /** Reading `ip_to_binary`'s output back as binary recovers the address. */
  lemma IpToBinaryRoundTrip(a: Address)
    ensures BinaryToIp(IpToBinary(a)) == Some(a)
  {
    var s := IpToBinary(a);
    var os := Octets(a);
    assert Pow2(8) == 256;
    forall k | 0 <= k < 4
      ensures GroupOctet(Group(s, k)) == os[k]
    {
      BinaryDigitsRoundTrip(os[k], 8);
    }
    assert [GroupOctet(Group(s, 0)), GroupOctet(Group(s, 1)), GroupOctet(Group(s, 2)), GroupOctet(Group(s, 3))] == os;
    OctetsRoundTrip(a);
  }

  /** A string of the shape is the `ip_to_binary` output of the address it reads as. */
  lemma BinaryToIpRoundTrip(s: seq<char>)
    requires BinaryAddressShape(s)
    ensures BinaryToIp(s).Some? && IpToBinary(BinaryToIp(s).value) == s
  {
    var os := [GroupOctet(Group(s, 0)), GroupOctet(Group(s, 1)), GroupOctet(Group(s, 2)), GroupOctet(Group(s, 3))];
    OctetsOfFromOctets(os);
    forall k | 0 <= k < 4
      ensures OctetBits(os[k]) == Group(s, k)
    {
      BinaryValueRoundTrip(Group(s, k));
    }
    SplitGroups(s);
  }
}
