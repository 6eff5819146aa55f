/** The second checksum implementation (libs/commons/src/net_helper.c): the pseudo-header is
    copied into a buffer, and the words are loaded in host byte order. */
module NetHelper {
  import opened Bytes
  import opened InternetChecksum
  import opened Udp
  import OuterRules

  /** `checksum`: sums 16-bit loads and an odd last octet, then folds and complements. */
  method Checksum(host: Endian, data: array<byte>) returns (r: uint16)
    requires data.Length < 0x1_0000_0000_0000
    ensures r == 0xFFFF - Residue(HostWordSum(host, data[..]))
  {
    var sum: nat, i: nat, length: nat := 0, 0, data.Length;
    while length > 1
      invariant i + length == data.Length
      invariant sum + HostWordSum(host, data[i..]) == HostWordSum(host, data[..])
    {
      assert data[i..][2..] == data[i + 2..];
      sum := sum + Load16(host, data[i], data[i + 1]);
      i, length := i + 2, length - 2;
    }
    if length > 0 {
      sum := sum + data[i];
    }
    HostWordSumBound(host, data[..]);
    var folded, _ := FoldCarries(sum);
    r := 0xFFFF - folded;
  }

  lemma {:induction false} HostWordSumBound(host: Endian, s: bytes)
    ensures HostWordSum(host, s) <= 0xFFFF * |s|
    decreases |s|
  {
    if |s| >= 2 {
      HostWordSumBound(host, s[2..]);
    }
  }

  /** `memcpy` into a buffer. */
  method Copy(buffer: array<byte>, start: nat, s: bytes)
    requires start + |s| <= buffer.Length
    modifies buffer
    ensures buffer[..start + |s|] == old(buffer[..start]) + s
    ensures forall k :: start + |s| <= k < buffer.Length ==> buffer[k] == old(buffer[k])
  {
    for i := 0 to |s|
      invariant buffer[..start + i] == old(buffer[..start]) + s[..i]
      invariant forall k :: start + i <= k < buffer.Length ==> buffer[k] == old(buffer[k])
    {
      buffer[start + i] := s[i];
    }
  }

  /** `udp_checksum` of net_helper.c; the result is a 16-bit value in host order. */
  method UdpChecksumMaterialised(host: Endian, src: bytes, dst: bytes, udp: bytes, payload: bytes) returns (r: uint16)
    requires |src| == 16 && |dst| == 16 && |udp| == UDP_HEADER && |payload| < 0x1_0000_0000 - 48
    ensures r == 0xFFFF - Residue(HostWordSum(host, PseudoHeader(src, dst, |udp + payload|) + (udp + payload)))
  {
    var length := UDP_HEADER + |payload|;
    hide HostWordSum, Residue, PseudoHeader;
    var buffer := new byte[40 + length](_ => 0);
    FillPseudoHeader(buffer, src, dst, length);
    Copy(buffer, 40, udp);
    Copy(buffer, 40 + UDP_HEADER, payload);
    ghost var header := PseudoHeader(src, dst, length);
    assert buffer[..] == buffer[..40 + length];
    assert header + udp + payload == header + (udp + payload);
    r := Checksum(host, buffer);
  }

  /** The zeroed buffer receives addresses, length and next header. */
  method FillPseudoHeader(buffer: array<byte>, src: bytes, dst: bytes, length: nat)
    requires |src| == 16 && |dst| == 16 && length < 0x1_0000_0000
    requires buffer.Length >= 40 && buffer[36] == buffer[37] == buffer[38] == 0
    modifies buffer
    ensures buffer[..40] == PseudoHeader(src, dst, length)
  {
    Copy(buffer, 0, src);
    assert buffer[..16] == src;
    Copy(buffer, 16, dst);
    assert buffer[..32] == src + dst;
    var octets := NetworkOctets32(length);
    Copy(buffer, 32, octets);
    assert buffer[..36] == src + dst + octets;
    buffer[39] := PROTOCOL_UDP;
    assert buffer[..36] == src + dst + octets;
    assert buffer[..40] == buffer[..36] + [buffer[36], buffer[37], buffer[38], buffer[39]];
  }

  /** The octets of `htonl(v)` in memory. */
  method NetworkOctets32(v: nat) returns (r: bytes)
    requires v < 0x1_0000_0000
    ensures r == Network16(v / 0x1_0000) + Network16(v % 0x1_0000)
  {
    var high: uint16, low: uint16 := v / 0x1_0000, v % 0x1_0000;
    r := [high / 0x100, high % 0x100, low / 0x100, low % 0x100];
    Be16Injective(r[0], r[1], Network16(high)[0], Network16(high)[1]);
    Be16Injective(r[2], r[3], Network16(low)[0], Network16(low)[1]);
  }

  // ---------------------------------------------------------------- both on the wire

  /** The two octets net_helper.c would store. */
  function WireMaterialised(host: Endian, covered: bytes): (byte, byte) {
    Octets16(host, 0xFFFF - Residue(HostWordSum(host, covered)))
  }

  /** The two octets udp.c stores. */
  function WireStreaming(host: Endian, covered: bytes): (byte, byte) {
    Octets16(host, Htons(host, Complement(OnesSum(covered))))
  }

  /** Section 2(B) of RFC 1071: the byte orders agree on the wire. They part exactly when the
      complement is zero, which only udp.c replaces, and on a big-endian host when an odd
      last octet, which net_helper.c adds in the low half of its word, is not zero. */
  lemma WireOctetsAgreeIff(host: Endian, covered: bytes)
    requires WordSum(covered) > 0
    ensures WireMaterialised(host, covered) == WireStreaming(host, covered)
       <==> OnesSum(covered) != 0xFFFF && (host.Little? || |covered| % 2 == 0 || covered[|covered| - 1] == 0)
  {
    FoldedSumIsOnesSum(covered);
    var r := OnesSum(covered);
    if host.Little? {
      LittleHostSumIsSwapped(covered);
      ComplementSwaps(r);
      StoredHtonsIsBigEndian(Little, Complement(r));
      OctetsDistinct(Little, Swap16(0xFFFF - r), Htons(Little, Complement(r)));
    } else {
      OctetsDistinct(Big, 0xFFFF - Residue(HostWordSum(Big, covered)), Complement(r));
      BigHostSumIff(covered);
      OddTailIsLast(covered);
    }
  }

  /** The same for every address pair and every datagram with a zero checksum field. */
  lemma ImplementationsAgreeIff(host: Endian, src: bytes, dst: bytes, udp: bytes)
    requires |src| == 16 && |dst| == 16 && |udp| < 0x1_0000_0000
    ensures WireMaterialised(host, PseudoHeader(src, dst, |udp|) + udp)
              == Octets16(host, Htons(host, StandardChecksum(src, dst, udp)))
       <==> 0xFFFF - OnesSum(PseudoHeader(src, dst, |udp|) + udp) != 0
            && (host.Little? || |udp| % 2 == 0 || udp[|udp| - 1] == 0)
  {
    PseudoSumPositive(src, dst, udp);
    hide WordSum, HostWordSum, OnesSum, PseudoHeader, Residue, Octets16;
    WireOctetsAgreeIff(host, PseudoHeader(src, dst, |udp|) + udp);
    SameTail(PseudoHeader(src, dst, |udp|), udp);
  }

  lemma SameTail(header: bytes, udp: bytes)
    requires |header| == 40
    ensures |header + udp| % 2 == 0 || (header + udp)[|header + udp| - 1] == 0
       <==> |udp| % 2 == 0 || udp[|udp| - 1] == 0
  {
  }

  lemma PseudoSumPositive(src: bytes, dst: bytes, udp: bytes)
    requires |src| == 16 && |dst| == 16 && |udp| < 0x1_0000_0000
    ensures WordSum(PseudoHeader(src, dst, |udp|) + udp) > 0
  {
    hide WordSum, PseudoHeader;
    WordSumAppend(PseudoHeader(src, dst, |udp|), udp);
    PseudoHeaderSum(src, dst, |udp|);
  }

  lemma ComplementSwaps(r: uint16)
    requires r > 0
    ensures 0xFFFF - Swap16(r) == Swap16(0xFFFF - r)
    ensures Swap16(0xFFFF - r) == Htons(Little, Complement(r)) <==> r != 0xFFFF
  {
    var hi, lo := r / 0x100, r % 0x100;
    assert 0xFFFF - r == 0x100 * (0xFF - hi) + (0xFF - lo);
    assert (0xFFFF - r) / 0x100 == 0xFF - hi && (0xFFFF - r) % 0x100 == 0xFF - lo;
  }

  lemma OctetsDistinct(host: Endian, a: uint16, b: uint16)
    ensures Octets16(host, a) == Octets16(host, b) <==> a == b
  {
  }

  // ---------------------------------------------------------------- building a packet

  /** The packet `generate_ipv6_udp_packet` lays out: flow label 0x6724d, hop limit 64, checksum 0. */
  ghost function GeneratedPacket(src: bytes, dst: bytes, srcPort: uint16, dstPort: uint16, payload: bytes): (r: bytes)
    requires |src| == 16 && |dst| == 16
    ensures |r| == HEADERS + |payload|
  {
    var length := LengthField(|payload|);
    [0x60, 0x06, 0x72, 0x4d] + Network16(length) + [PROTOCOL_UDP, 64] + src + dst
    + Network16(srcPort) + Network16(dstPort) + Network16(length) + [0, 0] + payload
  }

  /** `generate_ipv6_udp_packet`, with the address and port strings already parsed. */
  method GenerateIpv6UdpPacket(host: Endian, packet: array<byte>, src: bytes, dst: bytes,
                               srcPort: uint16, dstPort: uint16, payload: bytes)
    requires |src| == 16 && |dst| == 16 && HEADERS + |payload| <= packet.Length
    modifies packet
    ensures packet[..HEADERS + |payload|] == GeneratedPacket(src, dst, srcPort, dstPort, payload)
    ensures forall k :: HEADERS + |payload| <= k < packet.Length ==> packet[k] == old(packet[k])
  {
    hide LengthField, Htons;
    var length := LengthField(|payload|);
    forall k | 0 <= k < HEADERS + |payload| {
      packet[k] := 0;
    }
    StoreFirstOctets(host, packet, length);
    Copy(packet, 8, src);
    Copy(packet, 24, dst);
    ghost var addressed := packet[..40];
    StoreUdpHeader(host, packet, srcPort, dstPort, length);
    assert packet[..48] == addressed + Network16(srcPort) + Network16(dstPort) + Network16(length) + [0, 0];
    Copy(packet, HEADERS, payload);
  }

  method StoreFirstOctets(host: Endian, packet: array<byte>, length: uint16)
    requires packet.Length >= HEADERS
    modifies packet
    ensures packet[..8] == [0x60, 0x06, 0x72, 0x4d] + Network16(length) + [PROTOCOL_UDP, 64]
    ensures forall k :: 8 <= k < packet.Length ==> packet[k] == old(packet[k])
  {
    packet[0] := 0x60;
    packet[1], packet[2], packet[3] := 0x06, 0x72, 0x4d;
    StoreHost16(host, packet, 4, Htons(host, length), length);
    packet[6], packet[7] := PROTOCOL_UDP, 64;
  }

  method StoreUdpHeader(host: Endian, packet: array<byte>, srcPort: uint16, dstPort: uint16, length: uint16)
    requires packet.Length >= HEADERS
    modifies packet
    ensures packet[..40] == old(packet[..40])
    ensures packet[40..48] == Network16(srcPort) + Network16(dstPort) + Network16(length) + [0, 0]
    ensures forall k :: HEADERS <= k < packet.Length ==> packet[k] == old(packet[k])
  {
    StoreHost16(host, packet, 40, Htons(host, srcPort), srcPort);
    StoreHost16(host, packet, 42, Htons(host, dstPort), dstPort);
    StoreHost16(host, packet, 44, Htons(host, length), length);
    packet[46], packet[47] := 0, 0;
  }

  /** A generated packet has no checksum yet; `update_udp_checksum` makes it coherent. */
  lemma GeneratedThenChecksummed(src: bytes, dst: bytes, srcPort: uint16, dstPort: uint16, payload: bytes)
    requires |src| == 16 && |dst| == 16 && |payload| <= 65527
    ensures var p := GeneratedPacket(src, dst, srcPort, dstPort, payload);
            && HoldsDatagram(p) && !Coherent(p) && Coherent(WithChecksum(p))
            && SourceAddress(WithChecksum(p)) == src && DestinationAddress(WithChecksum(p)) == dst
            && Payload(WithChecksum(p)) == payload
  {
    hide WithChecksum, Verifies, LengthField;
    LengthFieldFits(|payload|);
    var p := GeneratedPacket(src, dst, srcPort, dstPort, payload);
    assert Get16(p, 4) == UdpLength(p) == UDP_HEADER + |payload|;
    UpdatedChecksumVerifies(p);
    var q := WithChecksum(p);
    assert q[4] == p[4] && q[5] == p[5] && q[44] == p[44] && q[45] == p[45] && q[0] == p[0] && q[6] == p[6];
    assert SourceAddress(q) == src && DestinationAddress(q) == dst && Payload(q) == payload;
  }

  /** Its header fields. */
  lemma GeneratedFields(src: bytes, dst: bytes, srcPort: uint16, dstPort: uint16, payload: bytes)
    requires |src| == 16 && |dst| == 16
    ensures var p := GeneratedPacket(src, dst, srcPort, dstPort, payload);
            && IsIpv6Udp(p) && OuterRules.Version(p) == 6 && OuterRules.TrafficClass(p) == 0
            && OuterRules.FlowLabel(p) == 0x6724d && p[7] == 64
            && Get16(p, 40) == srcPort && Get16(p, 42) == dstPort && Get16(p, CHECKSUM_AT) == 0
            && Get16(p, 4) == UdpLength(p) == LengthField(|payload|)
            && SourceAddress(p) == src && DestinationAddress(p) == dst && Payload(p) == payload
  {
    hide LengthField;
  }
}
