/** IPv6/UDP header access and the streaming UDP checksum (libs/net/src/udp.c). */
module Udp {
  import opened Bytes
  import opened InternetChecksum

  const IPV6_HEADER: nat := 40
  const UDP_HEADER: nat := 8
  const HEADERS: nat := 48
  const PROTOCOL_UDP: byte := 17
  const CHECKSUM_AT: nat := 46

  // ---------------------------------------------------------------- reading a packet

  /** `is_ipv6_udp_packet` on the `packet_size` octets of a packet. */
  predicate IsIpv6Udp(p: bytes) {
    |p| >= HEADERS && p[0] / 0x10 == 6 && p[6] == PROTOCOL_UDP
  }

  function UdpLength(p: bytes): uint16
    requires |p| >= HEADERS
  {
    Get16(p, 44)
  }

  /** `ipv6_udp_payload_len`. */
  function PayloadLength(p: bytes): uint16
    requires |p| >= HEADERS
  {
    if UdpLength(p) < UDP_HEADER then 0 else UdpLength(p) - UDP_HEADER
  }

  /** `is_coap_packet`: version 1 in the two top bits of the first octet. */
  predicate IsCoap(payload: bytes) {
    |payload| >= 1 && payload[0] / 0x40 == 1
  }

  /** The buffer holds the whole UDP datagram that its header announces. */
  predicate HoldsDatagram(p: bytes) {
    |p| >= HEADERS && IPV6_HEADER + UdpLength(p) <= |p|
  }

  function SourceAddress(p: bytes): (r: bytes)
    requires |p| >= HEADERS
    ensures |r| == 16
  {
    p[8..24]
  }

  function DestinationAddress(p: bytes): (r: bytes)
    requires |p| >= HEADERS
    ensures |r| == 16
  {
    p[24..40]
  }

  function Datagram(p: bytes): (r: bytes)
    requires HoldsDatagram(p)
    ensures |r| == UdpLength(p)
  {
    p[IPV6_HEADER..IPV6_HEADER + UdpLength(p)]
  }

  // ---------------------------------------------------------------- the standard's checksum

  /** The pseudo-header of section 8.1 of RFC 8200. */
  ghost function PseudoHeader(src: bytes, dst: bytes, length: nat): (r: bytes)
    requires |src| == 16 && |dst| == 16 && length < 0x1_0000_0000
    ensures |r| == 40
  {
    src + dst + Network16(length / 0x1_0000) + Network16(length % 0x1_0000) + [0, 0, 0, PROTOCOL_UDP]
  }

  /** Complement, with 0 sent as all ones because 0 means "no checksum". */
  function Complement(sum: uint16): (r: uint16)
    ensures r != 0
  {
    if sum == 0xFFFF then 0xFFFF else 0xFFFF - sum
  }

  /** The checksum section 8.1 of RFC 8200 asks for; `udp` has a zero checksum field. */
  ghost function StandardChecksum(src: bytes, dst: bytes, udp: bytes): uint16
    requires |src| == 16 && |dst| == 16 && |udp| < 0x1_0000_0000
  {
    Complement(OnesSum(PseudoHeader(src, dst, |udp|) + udp))
  }

  /** Everything a receiver sums: pseudo-header and datagram, checksum included. */
  ghost function Covered(p: bytes): bytes
    requires HoldsDatagram(p)
  {
    PseudoHeader(SourceAddress(p), DestinationAddress(p), UdpLength(p)) + Datagram(p)
  }

  /** The receiver's test. */
  ghost predicate Verifies(p: bytes)
    requires HoldsDatagram(p)
  {
    OnesSum(Covered(p)) == 0xFFFF
  }

  // ---------------------------------------------------------------- computing it

  /** The unfolded sum of `udp_checksum`: the length goes in as two 16-bit halves. */
  function RawSum(src: bytes, dst: bytes, udp: bytes): nat {
    WordSum(src) + WordSum(dst) + HighHalf(|udp|) + |udp| % 0x1_0000 + PROTOCOL_UDP + WordSum(udp)
  }

  /** `(uint32_t)(size >> 16) & 0xFFFF` */
  function HighHalf(size: nat): uint16 {
    size / 0x1_0000 % 0x1_0000
  }

  lemma PseudoHeaderSum(src: bytes, dst: bytes, length: nat)
    requires |src| == 16 && |dst| == 16 && length < 0x1_0000_0000
    ensures WordSum(PseudoHeader(src, dst, length))
         == WordSum(src) + WordSum(dst) + length / 0x1_0000 + length % 0x1_0000 + PROTOCOL_UDP
  {
    var high, low := Network16(length / 0x1_0000), Network16(length % 0x1_0000);
    var last: bytes := [0, 0, 0, PROTOCOL_UDP];
    assert PseudoHeader(src, dst, length) == src + (dst + (high + (low + last)));
    WordSumAppend(src, dst + (high + (low + last)));
    WordSumAppend(dst, high + (low + last));
    WordSumAppend(high, low + last);
    WordSumAppend(low, last);
    WordSumOfTwo(high);
    WordSumOfTwo(low);
    assert last[2..] == [0, PROTOCOL_UDP];
    WordSumOfTwo(last[2..]);
  }

  lemma RawSumIsCoveredSum(src: bytes, dst: bytes, udp: bytes)
    requires |src| == 16 && |dst| == 16 && |udp| < 0x1_0000_0000
    ensures RawSum(src, dst, udp) == WordSum(PseudoHeader(src, dst, |udp|) + udp)
  {
    hide WordSum, PseudoHeader;
    WordSumAppend(PseudoHeader(src, dst, |udp|), udp);
    PseudoHeaderSum(src, dst, |udp|);
    assert |udp| / 0x1_0000 < 0x1_0000;
  }

  /** For datagrams of a representable length the 64-bit accumulator never overflows, and
      folding a 16-bit datagram takes at most two rounds. */
  lemma RawSumFits(src: bytes, dst: bytes, udp: bytes)
    requires |src| == 16 && |dst| == 16 && |udp| < 0x1_0000_0000
    ensures RawSum(src, dst, udp) < TWO_TO_THE_64
    ensures |udp| < 0x1_0000 ==> FoldRounds(RawSum(src, dst, udp)) <= 2
  {
    WordSumBound(src);
    WordSumBound(dst);
    WordSumBound(udp);
    FoldRoundsBounded(RawSum(src, dst, udp));
  }

  lemma SmallSumUnwrapped(n: nat)
    requires n < TWO_TO_THE_64
    ensures n % TWO_TO_THE_64 == n
  {
  }

  /** `csum_add`: any accumulator value, any length, even or odd, modulo 2^64. */
  method CsumAdd(sum: uint64, p: array<byte>, start: nat, n: nat) returns (r: uint64)
    requires start + n <= p.Length
    ensures r == (sum + WordSum(p[start..start + n])) % TWO_TO_THE_64
  {
    r := sum;
    var i, left := start, n;
    while left > 1
      invariant i + left == start + n
      invariant (r + WordSum(p[i..start + n])) % TWO_TO_THE_64 == (sum + WordSum(p[start..start + n])) % TWO_TO_THE_64
    {
      ghost var rest := p[i..start + n];
      assert rest[2..] == p[i + 2..start + n];
      WrappedAdd(r + Be16(p[i], p[i + 1]), WordSum(rest[2..]));
      r := (r + Be16(p[i], p[i + 1])) % TWO_TO_THE_64;
      i, left := i + 2, left - 2;
    }
    if left != 0 {
      r := (r + Be16(p[i], 0)) % TWO_TO_THE_64;
    }
  }

  lemma WrappedAdd(a: nat, b: nat)
    ensures (a % TWO_TO_THE_64 + b) % TWO_TO_THE_64 == (a + b) % TWO_TO_THE_64
  {
  }

  /** `sum += term` on the 64-bit accumulator, with the unwrapped sum alongside. */
  method AddWrapped(sum: uint64, term: nat, ghost raw: nat) returns (r: uint64, ghost total: nat)
    requires sum == raw % TWO_TO_THE_64
    ensures total == raw + term && r == total % TWO_TO_THE_64
  {
    WrappedAdd(raw, term);
    r, total := (sum + term) % TWO_TO_THE_64, raw + term;
  }

  /** The 64-bit sum over pseudo-header and datagram. */
  method SumCovered(buf: array<byte>, udpAt: nat, size: nat, srcAt: nat, dstAt: nat) returns (sum: uint64)
    requires udpAt + size <= buf.Length && srcAt + 16 <= buf.Length && dstAt + 16 <= buf.Length
    ensures sum == RawSum(buf[srcAt..srcAt + 16], buf[dstAt..dstAt + 16], buf[udpAt..udpAt + size]) % TWO_TO_THE_64
  {
    hide WordSum, HighHalf;
    ghost var src, dst, udp := buf[srcAt..srcAt + 16], buf[dstAt..dstAt + 16], buf[udpAt..udpAt + size];
    sum := CsumAdd(0, buf, srcAt, 16);
    sum := CsumAdd(sum, buf, dstAt, 16);
    ghost var raw := WordSum(src) + WordSum(dst);
    WrappedAdd(WordSum(src), WordSum(dst));
    sum, raw := AddWrapped(sum, HighHalf(size), raw);
    sum, raw := AddWrapped(sum, size % 0x1_0000, raw);
    sum, raw := AddWrapped(sum, PROTOCOL_UDP, raw);
    sum := CsumAdd(sum, buf, udpAt, size);
    WrappedAdd(raw, WordSum(udp));
    assert raw + WordSum(udp) == RawSum(src, dst, udp);
  }

  /** `udp_checksum`; the result is what the caller stores in the `uh_sum` field. */
  method UdpChecksum(host: Endian, buf: array<byte>, udpAt: nat, size: nat, srcAt: nat, dstAt: nat)
    returns (r: uint16)
    requires udpAt + size <= buf.Length && srcAt + 16 <= buf.Length && dstAt + 16 <= buf.Length
    ensures r == Htons(host, Complement(Residue(
                 RawSum(buf[srcAt..srcAt + 16], buf[dstAt..dstAt + 16], buf[udpAt..udpAt + size]) % TWO_TO_THE_64)))
    ensures size < 0x1_0000_0000 ==>
              r == Htons(host, StandardChecksum(
                     buf[srcAt..srcAt + 16], buf[dstAt..dstAt + 16], buf[udpAt..udpAt + size]))
  {
    var sum := SumCovered(buf, udpAt, size, srcAt, dstAt);
    r := FinishChecksum(host, sum);
    if size < 0x1_0000_0000 {
      CarriesFoldedAtTheEnd(buf[srcAt..srcAt + 16], buf[dstAt..dstAt + 16], buf[udpAt..udpAt + size]);
    }
  }

  /** Fold, complement, avoid zero, `htons`. */
  method FinishChecksum(host: Endian, sum: uint64) returns (r: uint16)
    ensures r == Htons(host, Complement(Residue(sum)))
  {
    var folded, _ := FoldCarries(sum);
    var result := 0xFFFF - folded;
    if result == 0 {
      result := 0xFFFF;
    }
    r := Htons(host, result);
  }

  /** The 64-bit sum, folded once at the end, gives the standard's checksum. */
  lemma CarriesFoldedAtTheEnd(src: bytes, dst: bytes, udp: bytes)
    requires |src| == 16 && |dst| == 16 && |udp| < 0x1_0000_0000
    ensures Complement(Residue(RawSum(src, dst, udp) % TWO_TO_THE_64)) == StandardChecksum(src, dst, udp)
  {
    hide WordSum, PseudoHeader, RawSum, Residue, OnesSum;
    RawSumIsCoveredSum(src, dst, udp);
    RawSumFits(src, dst, udp);
    SmallSumUnwrapped(RawSum(src, dst, udp));
    FoldedSumIsOnesSum(PseudoHeader(src, dst, |udp|) + udp);
  }

  /** The packet with its checksum field recomputed. */
  ghost function WithChecksum(p: bytes): (r: bytes)
    requires HoldsDatagram(p)
    ensures |r| == |p|
    ensures forall k :: 0 <= k < |p| && k != 46 && k != 47 ==> r[k] == p[k]
    ensures Get16(r, CHECKSUM_AT) != 0
  {
    var z := Put16(p, CHECKSUM_AT, 0);
    assert HoldsDatagram(z) && |Datagram(z)| < 0x1_0000;
    var c := StandardChecksum(SourceAddress(z), DestinationAddress(z), Datagram(z));
    Put16(z, CHECKSUM_AT, c)
  }

  /** `update_udp_checksum`. */
  method UpdateUdpChecksum(host: Endian, packet: array<byte>)
    requires HoldsDatagram(packet[..])
    modifies packet
    ensures packet[..] == WithChecksum(old(packet[..]))
  {
    LoadedNtohsIsBigEndian(host, packet[44], packet[45]);
    var ulen := Htons(host, Load16(host, packet[44], packet[45]));
    StoreHost16(host, packet, CHECKSUM_AT, 0, 0);
    ghost var z := packet[..];
    assert ulen == UdpLength(z);
    assert packet[8..8 + 16] == SourceAddress(z) && packet[24..24 + 16] == DestinationAddress(z);
    assert packet[IPV6_HEADER..IPV6_HEADER + ulen] == Datagram(z);
    var sum := UdpChecksum(host, packet, IPV6_HEADER, ulen, 8, 24);
    StoreHost16(host, packet, CHECKSUM_AT, sum, StandardChecksum(SourceAddress(z), DestinationAddress(z), Datagram(z)));
  }

  /** `sizeof(struct udphdr) + size` as the `uint16_t` argument of `htons`. */
  function LengthField(size: nat): uint16 {
    (UDP_HEADER + size) % 0x1_0000
  }

  lemma LengthFieldFits(size: nat)
    requires size <= 65527
    ensures LengthField(size) == UDP_HEADER + size
  {
  }

  /** The packet with both length fields rewritten. */
  ghost function WithLengths(p: bytes, size: nat): (r: bytes)
    requires |p| >= HEADERS
    ensures |r| == |p| && Get16(r, 4) == UdpLength(r) == LengthField(size)
    ensures forall k :: 0 <= k < |p| && k != 4 && k != 5 && k != 44 && k != 45 ==> r[k] == p[k]
  {
    Put16(Put16(p, 4, LengthField(size)), 44, LengthField(size))
  }

  /** `update_ip6_udp_len`. */
  method UpdateIp6UdpLen(host: Endian, packet: array<byte>, size: nat)
    requires packet.Length >= HEADERS
    modifies packet
    ensures packet[..] == WithLengths(old(packet[..]), size)
  {
    var total := LengthField(size);
    StoreHost16(host, packet, 4, Htons(host, total), total);
    StoreHost16(host, packet, 44, Htons(host, total), total);
  }

  // ---------------------------------------------------------------- what the updates achieve

  /** The checksum sits at octet 46 of what the receiver sums, too. */
  lemma CoveredChecksum(p: bytes, w: uint16)
    requires HoldsDatagram(p) && UdpLength(p) >= UDP_HEADER
    ensures HoldsDatagram(Put16(p, CHECKSUM_AT, w))
    ensures |Covered(p)| >= HEADERS && Get16(Covered(p), CHECKSUM_AT) == Get16(p, CHECKSUM_AT)
    ensures Covered(Put16(p, CHECKSUM_AT, w)) == Put16(Covered(p), CHECKSUM_AT, w)
  {
  }

  /** The next-header word keeps the covered sum away from zero. */
  lemma CoveredSumPositive(p: bytes)
    requires HoldsDatagram(p)
    ensures WordSum(Covered(p)) > 0
  {
    PseudoHeaderSum(SourceAddress(p), DestinationAddress(p), UdpLength(p));
    WordSumAppend(PseudoHeader(SourceAddress(p), DestinationAddress(p), UdpLength(p)), Datagram(p));
  }

  /** A nonzero field verifies exactly when it is the standard checksum. */
  lemma VerifiesIff(p: bytes, w: uint16)
    requires HoldsDatagram(p) && UdpLength(p) >= UDP_HEADER
    requires w != 0
    ensures HoldsDatagram(Put16(p, CHECKSUM_AT, w))
    ensures Verifies(Put16(p, CHECKSUM_AT, w)) <==> Put16(p, CHECKSUM_AT, w) == WithChecksum(p)
  {
    var z := Put16(p, CHECKSUM_AT, 0);
    var q := Put16(p, CHECKSUM_AT, w);
    assert q == Put16(z, CHECKSUM_AT, w);
    CoveredChecksum(p, 0);
    CoveredChecksum(p, w);
    CoveredChecksum(z, w);
    CoveredSumPositive(z);
    WordSumPut16(Covered(z), CHECKSUM_AT, w);
    FoldedSumIsOnesSum(Covered(z));
    FoldedSumIsOnesSum(Covered(q));
    var c := Complement(OnesSum(Covered(z)));
    assert WithChecksum(p) == Put16(z, CHECKSUM_AT, c);
    assert Get16(Put16(z, CHECKSUM_AT, c), CHECKSUM_AT) == c && Get16(q, CHECKSUM_AT) == w;
    ComplementIff(WordSum(Covered(z)), w);
  }

  lemma ComplementIff(n: nat, w: uint16)
    requires n > 0 && w > 0
    ensures Residue(n + w) == 0xFFFF <==> w == Complement(Residue(n))
  {
    var k := ResidueMultiple(n);
    var k' := ResidueMultiple(n + w);
    if w == Complement(Residue(n)) {
      ResidueIs(n + w, 0xFFFF, if w == 0xFFFF == Residue(n) then k + 1 else k);
    }
  }

  /** Section 8.1 of RFC 8200: the receiver's sum over everything is all ones, and the field is never 0. */
  lemma UpdatedChecksumVerifies(p: bytes)
    requires HoldsDatagram(p) && UdpLength(p) >= UDP_HEADER
    ensures HoldsDatagram(WithChecksum(p)) && Verifies(WithChecksum(p))
    ensures Get16(WithChecksum(p), CHECKSUM_AT) != 0
  {
    var w := Get16(WithChecksum(p), CHECKSUM_AT);
    assert WithChecksum(p) == Put16(p, CHECKSUM_AT, w);
    VerifiesIff(p, w);
  }

  /** Recomputing the checksum changes nothing exactly when the old one was in use and correct. */
  lemma ChecksumFixpointIff(p: bytes)
    requires HoldsDatagram(p) && UdpLength(p) >= UDP_HEADER
    ensures WithChecksum(p) == p <==> Verifies(p) && Get16(p, CHECKSUM_AT) != 0
  {
    var w := Get16(p, CHECKSUM_AT);
    assert p == Put16(p, CHECKSUM_AT, w);
    if w != 0 {
      VerifiesIff(p, w);
    }
  }

  /** What is written is read back exactly when it fits the 16-bit length field. */
  lemma PayloadLengthReadBackIff(p: bytes, n: nat)
    requires |p| >= HEADERS
    ensures PayloadLength(WithLengths(p, n)) == n <==> n <= 65527
  {
    if n <= 65527 {
      LengthFieldFits(n);
    }
    hide LengthField;
  }

  /** A length field too small for the UDP header announces no payload; any other what follows the header. */
  lemma PayloadLengthIff(p: bytes, n: nat)
    requires |p| >= HEADERS
    ensures PayloadLength(p) == n <==>
              UDP_HEADER + n == UdpLength(p) || (n == 0 && UdpLength(p) < UDP_HEADER)
  {
  }

  // ---------------------------------------------------------------- replacing a payload

  /** Lengths agree with the frame and the checksum is in use and correct. */
  ghost predicate Coherent(p: bytes) {
    && IsIpv6Udp(p)
    && HoldsDatagram(p)
    && UDP_HEADER <= UdpLength(p) == Get16(p, 4) == |p| - IPV6_HEADER
    && Get16(p, CHECKSUM_AT) != 0
    && Verifies(p)
  }

  function Payload(p: bytes): bytes
    requires |p| >= HEADERS
  {
    p[HEADERS..]
  }

  /** A frame with the headers of `p` around a new payload, as both directions of the
      adaptation layer build it: lengths first, then the checksum. */
  ghost function Reframe(p: bytes, payload: bytes): (r: bytes)
    requires |p| >= HEADERS && |payload| <= 65527
    ensures |r| == HEADERS + |payload|
  {
    var q := WithLengths(p[..HEADERS] + payload, |payload|);
    WithChecksum(q)
  }

  /** Coherence of the rewritten headers: both length fields, the length read back, the checksum. */
  lemma ReframeIsCoherent(p: bytes, payload: bytes)
    requires IsIpv6Udp(p) && |payload| <= 65527
    ensures Coherent(Reframe(p, payload))
    ensures PayloadLength(Reframe(p, payload)) == |payload|
    ensures Payload(Reframe(p, payload)) == payload
    ensures forall k :: 0 <= k < HEADERS && k !in {4, 5, 44, 45, 46, 47} ==> Reframe(p, payload)[k] == p[k]
  {
    var f := p[..HEADERS] + payload;
    assert f[0] == p[0] && f[6] == p[6];
    var q := WithLengths(f, |payload|);
    UpdatedChecksumVerifies(q);
    var r := WithChecksum(q);
    assert r[0] == q[0] == f[0] && r[6] == q[6] == f[6];
    assert r[4] == q[4] && r[5] == q[5] && r[44] == q[44] && r[45] == q[45];
    assert Payload(r) == payload;
  }

  /** A coherent frame is determined by its payload and the header octets the updates leave alone. */
  lemma CoherentDetermined(p: bytes, q: bytes)
    requires Coherent(p) && Coherent(q)
    requires Payload(p) == Payload(q)
    requires forall k :: 0 <= k < HEADERS && k !in {4, 5, 44, 45, 46, 47} ==> p[k] == q[k]
    ensures p == q
  {
    assert |p| == HEADERS + |Payload(p)| == |q|;
    assert Get16(p, 4) == Get16(q, 4) && UdpLength(p) == UdpLength(q);
    Be16Injective(p[4], p[5], q[4], q[5]);
    Be16Injective(p[44], p[45], q[44], q[45]);
    var w := Get16(q, CHECKSUM_AT);
    forall k | 0 <= k < |p|
      ensures Put16(p, CHECKSUM_AT, w)[k] == q[k]
    {
      if k >= HEADERS {
        assert p[k] == Payload(p)[k - HEADERS] && q[k] == Payload(q)[k - HEADERS];
      } else if k == 46 || k == 47 {
        Be16Injective(Put16(p, CHECKSUM_AT, w)[46], Put16(p, CHECKSUM_AT, w)[47], q[46], q[47]);
      }
    }
    assert Put16(p, CHECKSUM_AT, w) == q;
    VerifiesIff(p, w);
    ChecksumFixpointIff(p);
  }

  /** Replacing the payload of a coherent frame and putting the old one back restores every octet. */
  lemma ReframeUndone(p: bytes, other: bytes)
    requires Coherent(p) && |other| <= 65527
    ensures Reframe(Reframe(p, other), Payload(p)) == p
  {
    var q := Reframe(p, other);
    ReframeIsCoherent(p, other);
    ReframeIsCoherent(q, Payload(p));
    CoherentDetermined(Reframe(q, Payload(p)), p);
  }

  /** The two updates work on the frame at the start of a larger buffer without looking past it. */
  lemma UpdatesInLargerBuffer(buf: bytes, n: nat)
    requires n <= 65527 && HEADERS + n <= |buf|
    ensures HoldsDatagram(WithLengths(buf, n))
    ensures WithChecksum(WithLengths(buf, n))[..HEADERS + n] == Reframe(buf, buf[HEADERS..HEADERS + n])
    ensures WithChecksum(WithLengths(buf, n))[HEADERS + n..] == buf[HEADERS + n..]
  {
    var m := HEADERS + n;
    var b, f := WithLengths(buf, n), WithLengths(buf[..m], n);
    assert buf[..HEADERS] + buf[HEADERS..m] == buf[..m];
    LengthFieldFits(n);
    hide LengthField;
    var w := LengthField(n);
    Put16Prefix(buf, 4, w, m);
    Put16Prefix(Put16(buf, 4, w), 44, w, m);
    assert b[..m] == f;
    Put16Prefix(b, CHECKSUM_AT, 0, m);
    hide Put16;
    var zb, zf := Put16(b, CHECKSUM_AT, 0), Put16(f, CHECKSUM_AT, 0);
    assert UdpLength(zb) == UdpLength(b) == w == UdpLength(f) == UdpLength(zf);
    SamePrefixSameDatagram(zb, zf);
    Put16Prefix(zb, CHECKSUM_AT, StandardChecksum(SourceAddress(zf), DestinationAddress(zf), Datagram(zf)), m);
    assert forall k :: m <= k < |buf| ==> WithChecksum(b)[k] == b[k] == buf[k];
  }

  lemma SamePrefixSameDatagram(p: bytes, q: bytes)
    requires HoldsDatagram(q) && |q| == IPV6_HEADER + UdpLength(q) <= |p| && p[..|q|] == q
    ensures HoldsDatagram(p) && Datagram(p) == Datagram(q)
    ensures SourceAddress(p) == SourceAddress(q) && DestinationAddress(p) == DestinationAddress(q)
  {
  }
}
