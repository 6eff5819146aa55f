/** The IPv6 and UDP entries that all rules of libs/schc_comp_apis/oscore_basic/src/outerrules.c share,
    and what a receiver can rebuild from them. */
module OuterRules {
  import opened Bytes
  import opened Udp
  import opened RuleId
  import opened Schc

  /** An address and a port, as octets in network order. */
  datatype Peer = Peer(address: bytes, port: bytes) {
    predicate Valid() {
      |address| == 16 && |port| == 2
    }
  }

  /** The four configuration arrays of one side. */
  datatype Node = Node(host: Peer, remote: Peer) {
    predicate Valid() {
      host.Valid() && remote.Valid()
    }
  }

  /** main.c gives the two sides each other's addresses and ports. */
  predicate Mirrored(a: Node, b: Node) {
    a.host == b.remote && a.remote == b.host
  }

  // ---------------------------------------------------------------- the table

  function Fixed(fid: Fid, len: nat, value: nat, mo: Mo): (r: RuleField)
    requires !mo.MoMsb?
    ensures r.WellFormed() && r.fid == fid && r.len == len && r.mo == mo && r.cda.NotSent?
    ensures r.tv == Some(LowBits(value, len))
  {
    RuleField(fid, Some(LowBits(value, len)), len, mo, NotSent)
  }

  function Octets(fid: Fid, value: bytes): RuleField {
    RuleField(fid, Some(BitsOf(value)), 8 * |value|, MoEqual, NotSent)
  }

  /** `add_ip_fields` */
  function IpFields(node: Node): seq<RuleField>
    requires node.Valid()
  {
    [ Fixed(Ipv6Version, 4, 6, MoEqual),
      Fixed(Ipv6TrafficClass, 8, 0, MoEqual),
      Fixed(Ipv6FlowLabel, 20, 0x12345, MoIgnore),
      RuleField(Ipv6PayloadLength, None, 16, MoIgnore, ComputeLength),
      Fixed(Ipv6NextHeader, 8, 17, MoEqual),
      Fixed(Ipv6HopLimit, 8, 64, MoIgnore),
      Octets(Ipv6PrefixDev, node.host.address[..8]),
      Octets(Ipv6IidDev, node.host.address[8..]),
      Octets(Ipv6PrefixApp, node.remote.address[..8]),
      Octets(Ipv6IidApp, node.remote.address[8..]) ]
  }

  /** `add_udp_fields` */
  function UdpFields(node: Node): seq<RuleField>
    requires node.Valid()
  {
    [ Octets(UdpPortDev, node.host.port),
      Octets(UdpPortApp, node.remote.port),
      RuleField(Schc.UdpLength, None, 16, MoIgnore, ComputeLength),
      RuleField(UdpChecksum, None, 16, MoIgnore, ComputeChecksum) ]
  }

  /** Rule 61. */
  function UdpRule(node: Node): (r: seq<RuleField>)
    requires node.Valid()
    ensures |r| == 14 && RuleWellFormed(r)
  {
    IpFields(node) + UdpFields(node)
  }

  lemma RuleEntries(node: Node)
    requires node.Valid()
    ensures var r := UdpRule(node);
            && r[0] == Fixed(Ipv6Version, 4, 6, MoEqual) && r[1] == Fixed(Ipv6TrafficClass, 8, 0, MoEqual)
            && r[2] == Fixed(Ipv6FlowLabel, 20, 0x12345, MoIgnore)
            && r[3] == RuleField(Ipv6PayloadLength, None, 16, MoIgnore, ComputeLength)
            && r[4] == Fixed(Ipv6NextHeader, 8, 17, MoEqual) && r[5] == Fixed(Ipv6HopLimit, 8, 64, MoIgnore)
            && r[6] == Octets(Ipv6PrefixDev, node.host.address[..8])
            && r[7] == Octets(Ipv6IidDev, node.host.address[8..])
            && r[8] == Octets(Ipv6PrefixApp, node.remote.address[..8])
            && r[9] == Octets(Ipv6IidApp, node.remote.address[8..])
            && r[10] == Octets(UdpPortDev, node.host.port) && r[11] == Octets(UdpPortApp, node.remote.port)
            && r[12] == RuleField(Schc.UdpLength, None, 16, MoIgnore, ComputeLength)
            && r[13] == RuleField(UdpChecksum, None, 16, MoIgnore, ComputeChecksum)
  {
    hide Fixed, Octets;
  }

  // ---------------------------------------------------------------- packets and header fields

  function Version(p: bytes): (r: nat)
    requires |p| >= HEADERS
    ensures r < 0x10
  {
    p[0] as int / 0x10
  }

  function TrafficClass(p: bytes): (r: nat)
    requires |p| >= HEADERS
    ensures r < 0x100
  {
    p[0] as int % 0x10 * 0x10 + p[1] as int / 0x10
  }

  function FlowLabel(p: bytes): (r: nat)
    requires |p| >= HEADERS
    ensures r < 0x10_0000
  {
    p[1] as int % 0x10 * 0x1_0000 + p[2] as int * 0x100 + p[3] as int
  }

  /** The fourteen header fields in rule order. The device is the local side: the source of what
      it sends, the destination of what it receives. */
  function HeaderFields(p: bytes, devIsSource: bool): (fs: seq<Field>)
    requires |p| >= HEADERS
    ensures |fs| == 14 && HeaderSized(fs)
  {
    var dev, app := if devIsSource then 8 else 24, if devIsSource then 24 else 8;
    var devPort, appPort := if devIsSource then 40 else 42, if devIsSource then 42 else 40;
    [ Field(Ipv6Version, LowBits(Version(p), 4)),
      Field(Ipv6TrafficClass, LowBits(TrafficClass(p), 8)),
      Field(Ipv6FlowLabel, LowBits(FlowLabel(p), 20)),
      Field(Ipv6PayloadLength, BitsOf(p[4..6])),
      Field(Ipv6NextHeader, LowBits(p[6], 8)),
      Field(Ipv6HopLimit, LowBits(p[7], 8)),
      Field(Ipv6PrefixDev, BitsOf(p[dev..dev + 8])),
      Field(Ipv6IidDev, BitsOf(p[dev + 8..dev + 16])),
      Field(Ipv6PrefixApp, BitsOf(p[app..app + 8])),
      Field(Ipv6IidApp, BitsOf(p[app + 8..app + 16])),
      Field(UdpPortDev, BitsOf(p[devPort..devPort + 2])),
      Field(UdpPortApp, BitsOf(p[appPort..appPort + 2])),
      Field(Schc.UdpLength, BitsOf(p[44..46])),
      Field(UdpChecksum, BitsOf(p[46..48])) ]
  }

  const FIELD_BITS: seq<nat> := [4, 8, 20, 16, 8, 8, 64, 64, 64, 64, 16, 16, 16, 16]

  predicate HeaderSized(fs: seq<Field>) {
    |fs| == 14 && forall k :: 0 <= k < 14 ==> |fs[k].value| == FIELD_BITS[k]
  }

  /** The header octets that the fields of a received packet stand for. */
  function BuildHeader(fs: seq<Field>, devIsSource: bool): (h: bytes)
    requires HeaderSized(fs)
    ensures |h| == HEADERS
  {
    FieldNumbers(fs);
    OctetCounts(fs);
    FirstWord(Number(fs[0].value), Number(fs[1].value), Number(fs[2].value))
    + OctetsOf(fs[3].value) + [Number(fs[4].value), Number(fs[5].value)]
    + EndPoints(fs, devIsSource) + OctetsOf(fs[12].value) + OctetsOf(fs[13].value)
  }

  /** Source and destination address, then source and destination port. */
  function EndPoints(fs: seq<Field>, devIsSource: bool): (r: bytes)
    requires HeaderSized(fs)
    ensures |r| == 36
  {
    OctetCounts(fs);
    var dev, app := OctetsOf(fs[6].value) + OctetsOf(fs[7].value), OctetsOf(fs[8].value) + OctetsOf(fs[9].value);
    var devPort, appPort := OctetsOf(fs[10].value), OctetsOf(fs[11].value);
    if devIsSource then dev + app + devPort + appPort else app + dev + appPort + devPort
  }

  /** Version, traffic class and flow label in four octets. */
  function FirstWord(version: nat, tc: nat, flow: nat): (r: bytes)
    requires version < 0x10 && tc < 0x100 && flow < 0x10_0000
    ensures |r| == 4
  {
    [version * 0x10 + tc / 0x10, tc % 0x10 * 0x10 + flow / 0x1_0000, flow / 0x100 % 0x100, flow % 0x100]
  }

  lemma FieldNumbers(fs: seq<Field>)
    requires HeaderSized(fs)
    ensures Number(fs[0].value) < 0x10 && Number(fs[1].value) < 0x100 && Number(fs[2].value) < 0x10_0000
    ensures Number(fs[4].value) < 0x100 && Number(fs[5].value) < 0x100
  {
    hide Number, Pow2;
    MorePowers();
    NumberBound(fs[0].value);
    NumberBound(fs[1].value);
    NumberBound(fs[2].value);
    NumberBound(fs[4].value);
    NumberBound(fs[5].value);
  }

  lemma MorePowers()
    ensures Pow2(4) == 0x10 && Pow2(8) == 0x100 && Pow2(20) == 0x10_0000
  {
    assert Pow2(12) == 0x10 * Pow2(8);
    assert Pow2(16) == 0x10 * Pow2(12);
    assert Pow2(20) == 0x10 * Pow2(16);
  }

  lemma {:induction false} OctetCount(s: bits)
    ensures |OctetsOf(s)| == |s| / 8
    decreases |s|
  {
    hide Number;
    if |s| >= 8 {
      OctetCount(s[8..]);
    }
  }

  lemma OctetCounts(fs: seq<Field>)
    requires HeaderSized(fs)
    ensures |OctetsOf(fs[3].value)| == |OctetsOf(fs[10].value)| == |OctetsOf(fs[11].value)| == 2
    ensures |OctetsOf(fs[12].value)| == |OctetsOf(fs[13].value)| == 2
    ensures |OctetsOf(fs[6].value)| == |OctetsOf(fs[7].value)| == 8
    ensures |OctetsOf(fs[8].value)| == |OctetsOf(fs[9].value)| == 8
  {
    hide OctetsOf;
    OctetCount(fs[3].value);
    OctetCount(fs[6].value);
    OctetCount(fs[7].value);
    OctetCount(fs[8].value);
    OctetCount(fs[9].value);
    OctetCount(fs[10].value);
    OctetCount(fs[11].value);
    OctetCount(fs[12].value);
    OctetCount(fs[13].value);
  }

  /** The fields of a header give it back, whichever side the device is. */
  lemma HeaderRebuilt(p: bytes, devIsSource: bool)
    requires |p| >= HEADERS
    ensures BuildHeader(HeaderFields(p, devIsSource), devIsSource) == p[..HEADERS]
  {
    hide LowBits, BitsOf, OctetsOf, Number, Pow2, HeaderSized, EndPoints, FirstWord, Version, TrafficClass, FlowLabel;
    var fs := HeaderFields(p, devIsSource);
    MorePowers();
    SmallNumber(Version(p), 4);
    SmallNumber(TrafficClass(p), 8);
    SmallNumber(FlowLabel(p), 20);
    SmallNumber(p[6], 8);
    SmallNumber(p[7], 8);
    FirstWordBack(p);
    EndPointsBack(p, devIsSource);
    OctetsBack(p[4..6]);
    OctetsBack(p[44..46]);
    OctetsBack(p[46..48]);
    assert p[..HEADERS] == p[..4] + p[4..6] + [p[6], p[7]] + p[8..44] + p[44..46] + p[46..48];
  }

  lemma FirstWordBack(p: bytes)
    requires |p| >= HEADERS
    ensures FirstWord(Version(p), TrafficClass(p), FlowLabel(p)) == p[..4]
  {
    HalvesBack(p[0] as int / 0x10, p[0] as int % 0x10);
    HalvesBack(p[0] as int % 0x10, p[1] as int / 0x10);
    HalvesBack(p[1] as int / 0x10, p[1] as int % 0x10);
    FlowBack(p[1] as int % 0x10, p[2], p[3]);
  }

  lemma HalvesBack(high: nat, low: nat)
    requires low < 0x10
    ensures (high * 0x10 + low) / 0x10 == high && (high * 0x10 + low) % 0x10 == low
  {
  }

  lemma FlowBack(high: nat, middle: byte, low: byte)
    ensures var flow := high * 0x1_0000 + middle as int * 0x100 + low as int;
            flow / 0x1_0000 == high && flow / 0x100 % 0x100 == middle && flow % 0x100 == low
  {
    LowOctetBack(high * 0x100 + middle as int, low);
    LowOctetBack(high, middle);
    LowWordBack(high, middle as int * 0x100 + low as int);
  }

  lemma LowOctetBack(high: nat, low: byte)
    ensures (high * 0x100 + low as int) / 0x100 == high && (high * 0x100 + low as int) % 0x100 == low
  {
  }

  lemma LowWordBack(high: nat, low: nat)
    requires low < 0x1_0000
    ensures (high * 0x1_0000 + low) / 0x1_0000 == high
  {
  }

  lemma EndPointsBack(p: bytes, devIsSource: bool)
    requires |p| >= HEADERS
    ensures EndPoints(HeaderFields(p, devIsSource), devIsSource) == p[8..44]
  {
    hide LowBits, BitsOf, OctetsOf, HeaderSized;
    OctetsBack(p[8..16]);
    OctetsBack(p[16..24]);
    OctetsBack(p[24..32]);
    OctetsBack(p[32..40]);
    OctetsBack(p[40..42]);
    OctetsBack(p[42..44]);
    assert p[8..44] == p[8..16] + p[16..24] + (p[24..32] + p[32..40]) + p[40..42] + p[42..44];
  }

  // ---------------------------------------------------------------- when rule 61 applies

  /** Rule 61 on the octets of a packet: IPv6 with traffic class zero and UDP between the two
      configured end points. Lengths, checksum, flow label and hop limit do not matter. */
  predicate BetweenPeers(node: Node, p: bytes)
    requires |p| >= HEADERS
  {
    && Version(p) == 6 && TrafficClass(p) == 0 && p[6] == 17
    && p[8..24] == node.host.address && p[24..40] == node.remote.address
    && p[40..42] == node.host.port && p[42..44] == node.remote.port
  }

  lemma Rule61MatchesIff(node: Node, p: bytes)
    requires node.Valid() && |p| >= HEADERS
    ensures Matches(UdpRule(node), HeaderFields(p, true)) <==> BetweenPeers(node, p)
  {
    FirstEntries(node, p);
    AddressEntries(node, p);
    PortEntries(node, p);
    hide UdpRule, HeaderFields, FieldMatches, Version, TrafficClass, FlowLabel;
    MatchesFourteen(UdpRule(node), HeaderFields(p, true));
    SameHalves(p, 8, node.host.address);
    SameHalves(p, 24, node.remote.address);
  }

  lemma FixedIff(fid: Fid, len: nat, target: nat, value: nat)
    requires 0 < len && target < Pow2(len) && value < Pow2(len)
    ensures FieldMatches(Fixed(fid, len, target, MoEqual), Field(fid, LowBits(value, len))) <==> value == target
  {
    SameLowBits(value, target, len);
  }

  lemma FirstEntries(node: Node, p: bytes)
    requires node.Valid() && |p| >= HEADERS
    ensures var r, fs := UdpRule(node), HeaderFields(p, true);
            && (FieldMatches(r[0], fs[0]) <==> Version(p) == 6)
            && (FieldMatches(r[1], fs[1]) <==> TrafficClass(p) == 0)
            && FieldMatches(r[2], fs[2]) && FieldMatches(r[3], fs[3])
            && (FieldMatches(r[4], fs[4]) <==> p[6] == 17)
            && FieldMatches(r[5], fs[5])
  {
    hide LowBits, BitsOf, Pow2, Version, TrafficClass, FlowLabel, UdpRule, Fixed, Octets, FieldMatches, HeaderSized;
    RuleEntries(node);
    MorePowers();
    FixedIff(Ipv6Version, 4, 6, Version(p));
    FixedIff(Ipv6TrafficClass, 8, 0, TrafficClass(p));
    FixedIff(Ipv6NextHeader, 8, 17, p[6]);
    IgnoredMatches(Fixed(Ipv6FlowLabel, 20, 0x12345, MoIgnore), LowBits(FlowLabel(p), 20));
    IgnoredMatches(RuleField(Ipv6PayloadLength, None, 16, MoIgnore, ComputeLength), BitsOf(p[4..6]));
    IgnoredMatches(Fixed(Ipv6HopLimit, 8, 64, MoIgnore), LowBits(p[7], 8));
  }

  lemma IgnoredMatches(rf: RuleField, v: bits)
    requires rf.WellFormed() && rf.mo.MoIgnore? && |v| == rf.len
    ensures FieldMatches(rf, Field(rf.fid, v))
  {
  }

  lemma AddressEntries(node: Node, p: bytes)
    requires node.Valid() && |p| >= HEADERS
    ensures var r, fs := UdpRule(node), HeaderFields(p, true);
            && (FieldMatches(r[6], fs[6]) <==> BitsOf(p[8..16]) == BitsOf(node.host.address[..8]))
            && (FieldMatches(r[7], fs[7]) <==> BitsOf(p[16..24]) == BitsOf(node.host.address[8..]))
            && (FieldMatches(r[8], fs[8]) <==> BitsOf(p[24..32]) == BitsOf(node.remote.address[..8]))
            && (FieldMatches(r[9], fs[9]) <==> BitsOf(p[32..40]) == BitsOf(node.remote.address[8..]))
  {
    hide LowBits, BitsOf, Version, TrafficClass, FlowLabel, UdpRule, Fixed;
    RuleEntries(node);
  }

  lemma PortEntries(node: Node, p: bytes)
    requires node.Valid() && |p| >= HEADERS
    ensures var r, fs := UdpRule(node), HeaderFields(p, true);
            && (FieldMatches(r[10], fs[10]) <==> p[40..42] == node.host.port)
            && (FieldMatches(r[11], fs[11]) <==> p[42..44] == node.remote.port)
            && FieldMatches(r[12], fs[12]) && FieldMatches(r[13], fs[13])
  {
    hide LowBits, BitsOf, Version, TrafficClass, FlowLabel, UdpRule, Fixed;
    RuleEntries(node);
    SameBits(p[40..42], node.host.port);
    SameBits(p[42..44], node.remote.port);
  }

  lemma MatchesFourteen(r: seq<RuleField>, fs: seq<Field>)
    requires RuleWellFormed(r) && |r| == |fs| == 14
    ensures Matches(r, fs) <==>
              && FieldMatches(r[0], fs[0]) && FieldMatches(r[1], fs[1]) && FieldMatches(r[2], fs[2])
              && FieldMatches(r[3], fs[3]) && FieldMatches(r[4], fs[4]) && FieldMatches(r[5], fs[5])
              && FieldMatches(r[6], fs[6]) && FieldMatches(r[7], fs[7]) && FieldMatches(r[8], fs[8])
              && FieldMatches(r[9], fs[9]) && FieldMatches(r[10], fs[10]) && FieldMatches(r[11], fs[11])
              && FieldMatches(r[12], fs[12]) && FieldMatches(r[13], fs[13])
  {
    hide FieldMatches;
  }

  lemma SameLowBits(a: nat, b: nat, n: nat)
    requires a < Pow2(n) && b < Pow2(n)
    ensures LowBits(a, n) == LowBits(b, n) <==> a == b
  {
    SmallNumber(a, n);
    SmallNumber(b, n);
  }

  lemma SameBits(a: bytes, b: bytes)
    ensures BitsOf(a) == BitsOf(b) <==> a == b
  {
    if BitsOf(a) == BitsOf(b) {
      BitsOfInjective(a, b);
    }
  }

  lemma SameHalves(p: bytes, at: nat, address: bytes)
    requires at + 16 <= |p| && |address| == 16
    ensures p[at..at + 16] == address <==>
              BitsOf(p[at..at + 8]) == BitsOf(address[..8]) && BitsOf(p[at + 8..at + 16]) == BitsOf(address[8..])
  {
    hide BitsOf;
    SameBits(p[at..at + 8], address[..8]);
    SameBits(p[at + 8..at + 16], address[8..]);
    assert p[at..at + 16] == p[at..at + 8] + p[at + 8..at + 16];
    assert address == address[..8] + address[8..];
  }

  // ---------------------------------------------------------------- what the receiver knows from the table

  /** The header that the table alone describes to the receiver. */
  function TargetHeader(node: Node): (h: bytes)
    requires node.Valid()
    ensures |h| == HEADERS
  {
    [0x60, 0x01, 0x23, 0x45, 0, 0, 17, 64] + node.remote.address + node.host.address
    + node.remote.port + node.host.port + [0, 0, 0, 0]
  }

  lemma UdpRuleSendsNothing(node: Node)
    requires node.Valid()
    ensures SendsNothing(UdpRule(node))
  {
    hide LowBits, BitsOf, UdpRule, Fixed;
    RuleEntries(node);
  }

  lemma FalsesOctets()
    ensures OctetsOf(Falses(16)) == [0, 0]
  {
    hide Number;
    ZeroBits(8);
    var s := Falses(16);
    assert s[..8] == Falses(8) && s[8..] == Falses(8) && Falses(8)[..8] == Falses(8) && Falses(8)[8..] == [];
    assert OctetsOf(s[8..]) == [0] + OctetsOf([]);
  }

  lemma TargetsSized(node: Node)
    requires node.Valid()
    ensures HeaderSized(Targets(UdpRule(node)))
  {
    hide LowBits, BitsOf, UdpRule;
    RuleEntries(node);
  }

  lemma KnownNumber(fid: Fid, len: nat, value: nat, mo: Mo)
    requires !mo.MoMsb? && value < Pow2(len)
    ensures Number(KnownField(Fixed(fid, len, value, mo)).value) == value
  {
    SmallNumber(value, len);
  }

  lemma KnownOctets(fid: Fid, value: bytes)
    ensures OctetsOf(KnownField(Octets(fid, value)).value) == value
  {
    OctetsBack(value);
  }

  lemma ComputedOctets(rf: RuleField)
    requires rf.WellFormed() && rf.Computed() && rf.len == 16
    ensures OctetsOf(KnownField(rf).value) == [0, 0]
  {
    FalsesOctets();
  }

  lemma TargetNumbers(node: Node)
    requires node.Valid()
    ensures var fs := Targets(UdpRule(node));
            && Number(fs[0].value) == 6 && Number(fs[1].value) == 0 && Number(fs[2].value) == 0x12345
            && Number(fs[4].value) == 17 && Number(fs[5].value) == 64
  {
    hide Number, Pow2, UdpRule, Fixed, Octets, KnownField;
    RuleEntries(node);
    MorePowers();
    KnownNumber(Ipv6Version, 4, 6, MoEqual);
    KnownNumber(Ipv6TrafficClass, 8, 0, MoEqual);
    KnownNumber(Ipv6FlowLabel, 20, 0x12345, MoIgnore);
    KnownNumber(Ipv6NextHeader, 8, 17, MoEqual);
    KnownNumber(Ipv6HopLimit, 8, 64, MoIgnore);
  }

  lemma TargetAddresses(node: Node)
    requires node.Valid()
    ensures var fs := Targets(UdpRule(node));
            && OctetsOf(fs[6].value) == node.host.address[..8] && OctetsOf(fs[7].value) == node.host.address[8..]
            && OctetsOf(fs[8].value) == node.remote.address[..8] && OctetsOf(fs[9].value) == node.remote.address[8..]
  {
    hide OctetsOf, UdpRule, Fixed, Octets, KnownField;
    RuleEntries(node);
    KnownOctets(Ipv6PrefixDev, node.host.address[..8]);
    KnownOctets(Ipv6IidDev, node.host.address[8..]);
    KnownOctets(Ipv6PrefixApp, node.remote.address[..8]);
    KnownOctets(Ipv6IidApp, node.remote.address[8..]);
  }

  lemma TargetOctets(node: Node)
    requires node.Valid()
    ensures var fs := Targets(UdpRule(node));
            && OctetsOf(fs[3].value) == OctetsOf(fs[12].value) == OctetsOf(fs[13].value) == [0, 0]
            && OctetsOf(fs[10].value) == node.host.port && OctetsOf(fs[11].value) == node.remote.port
  {
    hide OctetsOf, UdpRule, Fixed, Octets, KnownField;
    RuleEntries(node);
    ComputedOctets(UdpRule(node)[3]);
    ComputedOctets(UdpRule(node)[12]);
    ComputedOctets(UdpRule(node)[13]);
    KnownOctets(UdpPortDev, node.host.port);
    KnownOctets(UdpPortApp, node.remote.port);
  }

  lemma TargetEndPoints(node: Node)
    requires node.Valid() && HeaderSized(Targets(UdpRule(node)))
    ensures EndPoints(Targets(UdpRule(node)), false)
         == node.remote.address + node.host.address + node.remote.port + node.host.port
  {
    TargetAddresses(node);
    TargetOctets(node);
    hide UdpRule, Targets, OctetsOf, HeaderSized, EndPoints;
    EndPointsJoined(Targets(UdpRule(node)), node.host, node.remote);
  }

  lemma EndPointsJoined(fs: seq<Field>, dev: Peer, app: Peer)
    requires HeaderSized(fs) && dev.Valid() && app.Valid()
    requires OctetsOf(fs[6].value) == dev.address[..8] && OctetsOf(fs[7].value) == dev.address[8..]
    requires OctetsOf(fs[8].value) == app.address[..8] && OctetsOf(fs[9].value) == app.address[8..]
    requires OctetsOf(fs[10].value) == dev.port && OctetsOf(fs[11].value) == app.port
    ensures EndPoints(fs, false) == app.address + dev.address + app.port + dev.port
  {
    hide OctetsOf, HeaderSized;
    assert dev.address[..8] + dev.address[8..] == dev.address;
    assert app.address[..8] + app.address[8..] == app.address;
  }

  lemma OctetsBack(b: bytes)
    ensures OctetsOf(BitsOf(b)) == b
  {
    OctetsOfBits(b, []);
    assert BitsOf(b) + [] == BitsOf(b);
  }

  lemma TargetsBuild(node: Node)
    requires node.Valid()
    ensures HeaderSized(Targets(UdpRule(node)))
    ensures BuildHeader(Targets(UdpRule(node)), false) == TargetHeader(node)
  {
    hide UdpRule, Targets, OctetsOf, Number, HeaderSized, EndPoints;
    TargetsSized(node);
    TargetNumbers(node);
    TargetOctets(node);
    TargetEndPoints(node);
    assert FirstWord(6, 0, 0x12345) == [0x60, 0x01, 0x23, 0x45];
  }

  // ---------------------------------------------------------------- what survives

  /** The packet with the two values that rule 61 ignores replaced by the table's. */
  function Lossy(p: bytes): (r: bytes)
    requires |p| >= HEADERS
    ensures |r| == |p|
  {
    p[1 := p[1] / 0x10 * 0x10 + 1][2 := 0x23][3 := 0x45][7 := 64]
  }

  /** Neither value is covered by the checksum. */
  lemma LossyCoherentIff(p: bytes)
    requires |p| >= HEADERS
    ensures Coherent(Lossy(p)) <==> Coherent(p)
  {
  }

  lemma HeaderKept(a: Node, b: Node, p: bytes, k: nat)
    requires a.Valid() && b.Valid() && Mirrored(a, b) && |p| >= HEADERS && BetweenPeers(a, p)
    requires k < HEADERS && k !in {4, 5, 44, 45, 46, 47}
    ensures TargetHeader(b)[k] == Lossy(p)[k]
  {
  }

  /** What the receiver builds is the lossy packet exactly when the packet was coherent. */
  lemma RebuiltIsLossyIff(a: Node, b: Node, p: bytes)
    requires a.Valid() && b.Valid() && Mirrored(a, b)
    requires IsIpv6Udp(p) && |p| <= HEADERS + 65527 && BetweenPeers(a, p)
    ensures Reframe(TargetHeader(b), Payload(p)) == Lossy(p) <==> Coherent(p)
  {
    var t := TargetHeader(b);
    var r := Reframe(t, Payload(p));
    assert IsIpv6Udp(t);
    ReframeIsCoherent(t, Payload(p));
    LossyCoherentIff(p);
    if Coherent(p) {
      forall k | 0 <= k < HEADERS && k !in {4, 5, 44, 45, 46, 47}
        ensures r[k] == Lossy(p)[k]
      {
        HeaderKept(a, b, p, k);
      }
      assert Payload(Lossy(p)) == Payload(p);
      CoherentDetermined(r, Lossy(p));
    }
  }

  /** The lossy packet is the packet itself exactly when it already had those two values. */
  lemma LossyIsSameIff(p: bytes)
    requires |p| >= HEADERS
    ensures Lossy(p) == p <==> FlowLabel(p) == 0x12345 && p[7] == 64
  {
  }
}
