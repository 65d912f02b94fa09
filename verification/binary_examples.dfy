/** `ip_to_binary` on a concrete address. */
module BinaryExamples {
  import opened Binary

  lemma OctetBits192()
    ensures OctetBits(192) == "11000000"
  {
  }

  lemma OctetBits168()
    ensures OctetBits(168) == "10101000"
  {
  }

  lemma OctetBits1()
    ensures OctetBits(1) == "00000001"
  {
    assert BinaryDigits(0, 7) == "0000000";
  }

  lemma OctetBits0()
    ensures OctetBits(0) == "00000000"
  {
    assert BinaryDigits(0, 7) == "0000000";
  }

  lemma OctetsExample()
    ensures Octets(0xC0A8_0100) == [192, 168, 1, 0]
  {
  }

  lemma JoinExample()
    ensures Join("11000000", "10101000", "00000001", "00000000") == "11000000.10101000.00000001.00000000"
  {
  }

  /** 192.168.1.0 in binary. */
  lemma IpToBinaryExample()
    ensures IpToBinary(0xC0A8_0100) == "11000000.10101000.00000001.00000000"
  {
    var s := IpToBinary(0xC0A8_0100);
    OctetsExample();
    OctetBits192();
    OctetBits168();
    OctetBits1();
    OctetBits0();
    SplitGroups(s);
    JoinExample();
  }

  /** Reading the binary of 192.168.1.0 back. */
  lemma BinaryToIpExample()
    ensures BinaryToIp("11000000.10101000.00000001.00000000") == Some(0xC0A8_0100)
  {
    IpToBinaryExample();
    IpToBinaryRoundTrip(0xC0A8_0100);
  }
}
