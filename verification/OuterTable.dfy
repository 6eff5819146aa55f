/** The whole outer rule table at work: the sender chooses a rule and compresses, the receiver finds
    the rule by its identifier and decompresses. */
module OuterTable {
  import opened Bytes
  import opened Udp
  import opened Coap
  import opened RuleId
  import opened Schc
  import opened OuterRules
  import opened CoapRules

  const IP_UDP_RULE_ID: uint16 := 61
  const NO_COMP_RULE_ID: uint16 := 150

  /** The CoAP rules in the order in which they are added to the table, ahead of the IPv6/UDP rule. */
  const COAP_RULES: seq<CoapRule> :=
    [OscoreRequest, OscoreResponse, OscoreObserveRequest, OscoreObserveResponse, OscoreObserveNotif,
     EdhocRequest, EdhocResponse]

  datatype Choice = ByCoapRule(rule: CoapRule) | ByUdpRule | ByDefault

  function IdOf(choice: Choice): (id: uint16)
    ensures id in OUTER_RULE_IDS
  {
    match choice
    case ByCoapRule(rule) => RuleIdOf(rule)
    case ByUdpRule => IP_UDP_RULE_ID
    case ByDefault => NO_COMP_RULE_ID
  }

  // ---------------------------------------------------------------- choosing a rule

  /** Every entry of a CoAP rule against the fields of a packet, read as IPv6, UDP and CoAP. */
  predicate CoapRuleMatches(node: Node, rule: CoapRule, p: bytes)
    requires node.Valid() && |p| >= HEADERS
  {
    match Parse(Payload(p))
    case None => false
    case Some(m) => Matches(OuterRule(node, rule), HeaderFields(p, true) + CoapFields(m))
  }

  function FirstMatch(node: Node, rules: seq<CoapRule>, p: bytes): (r: Option<CoapRule>)
    requires node.Valid() && |p| >= HEADERS
    ensures r.Some? ==> CoapRuleMatches(node, r.value, p)
  {
    if rules == [] then None
    else if CoapRuleMatches(node, rules[0], p) then Some(rules[0])
    else FirstMatch(node, rules[1..], p)
  }

  /** The first rule of the table that matches. */
  function Choose(node: Node, p: bytes): Choice
    requires node.Valid()
  {
    if !IsIpv6Udp(p) then ByDefault
    else
      match FirstMatch(node, COAP_RULES, p)
      case Some(rule) => ByCoapRule(rule)
      case None => if Matches(UdpRule(node), HeaderFields(p, true)) then ByUdpRule else ByDefault
  }

  /** The message to which a CoAP rule applies, if there is one. */
  predicate CarriesFor(rule: CoapRule, p: bytes)
    requires |p| >= HEADERS
  {
    Parse(Payload(p)).Some? && Applies(rule, Parse(Payload(p)).value)
  }

  lemma CoapRuleMatchesIff(node: Node, rule: CoapRule, p: bytes)
    requires node.Valid() && |p| >= HEADERS
    ensures CoapRuleMatches(node, rule, p) <==> BetweenPeers(node, p) && CarriesFor(rule, p)
  {
    hide UdpRule, CoapEntries, HeaderFields, CoapFields, Matches, BetweenPeers, Applies, Parse;
    match Parse(Payload(p))
    case None =>
    case Some(m) =>
      ParseIff(Payload(p), m);
      MatchesAppend(UdpRule(node), CoapEntries(rule), HeaderFields(p, true), CoapFields(m));
      Rule61MatchesIff(node, p);
      AppliesIff(rule, m);
  }

  /** No packet matches two CoAP rules, so their order does not matter. */
  lemma OneRuleMatches(node: Node, r: CoapRule, t: CoapRule, p: bytes)
    requires node.Valid() && |p| >= HEADERS
    requires CoapRuleMatches(node, r, p) && CoapRuleMatches(node, t, p)
    ensures r == t
  {
    hide UdpRule, CoapEntries, HeaderFields, CoapFields, Matches, Parse;
    var m := Parse(Payload(p)).value;
    MatchesAppend(UdpRule(node), CoapEntries(r), HeaderFields(p, true), CoapFields(m));
    MatchesAppend(UdpRule(node), CoapEntries(t), HeaderFields(p, true), CoapFields(m));
    RulesExcludeEachOther(r, t, CoapFields(m));
  }

  lemma {:induction false} FirstMatchFinds(node: Node, rules: seq<CoapRule>, p: bytes, rule: CoapRule)
    requires node.Valid() && |p| >= HEADERS && rule in rules && CoapRuleMatches(node, rule, p)
    ensures FirstMatch(node, rules, p) == Some(rule)
    decreases |rules|
  {
    hide CoapRuleMatches;
    if CoapRuleMatches(node, rules[0], p) {
      OneRuleMatches(node, rules[0], rule, p);
    } else {
      FirstMatchFinds(node, rules[1..], p, rule);
    }
  }

  /** Which rule the table gives a packet: a CoAP rule exactly for its messages between the peers,
      the IPv6/UDP rule for the other packets between them, the default rule for the rest. */
  lemma ChooseIff(node: Node, p: bytes, rule: CoapRule)
    requires node.Valid()
    ensures Choose(node, p) == ByCoapRule(rule) <==>
              IsIpv6Udp(p) && BetweenPeers(node, p) && CarriesFor(rule, p)
    ensures Choose(node, p) == ByDefault <==> !IsIpv6Udp(p) || !BetweenPeers(node, p)
  {
    hide CoapRuleMatches, UdpRule, HeaderFields, Matches, BetweenPeers, CarriesFor, FirstMatch;
    if IsIpv6Udp(p) {
      Rule61MatchesIff(node, p);
      CoapRuleMatchesIff(node, rule, p);
      if CoapRuleMatches(node, rule, p) {
        AllListed(rule);
        FirstMatchFinds(node, COAP_RULES, p, rule);
      }
      var first := FirstMatch(node, COAP_RULES, p);
      if first.Some? {
        CoapRuleMatchesIff(node, first.value, p);
      }
    }
  }

  lemma AllListed(rule: CoapRule)
    ensures rule in COAP_RULES
  {
    var k := match rule
      case OscoreRequest => 0 case OscoreResponse => 1 case OscoreObserveRequest => 2
      case OscoreObserveResponse => 3 case OscoreObserveNotif => 4 case EdhocRequest => 5 case EdhocResponse => 6;
    assert COAP_RULES[k] == rule;
  }

  // ---------------------------------------------------------------- the identifiers

  function RuleWithId(rules: seq<CoapRule>, id: nat): (r: Option<CoapRule>)
    ensures r.Some? ==> RuleIdOf(r.value) == id
  {
    if rules == [] then None
    else if RuleIdOf(rules[0]) == id then Some(rules[0])
    else RuleWithId(rules[1..], id)
  }

  lemma {:induction false} RuleWithIdFinds(rules: seq<CoapRule>, rule: CoapRule)
    requires rule in rules
    ensures RuleWithId(rules, RuleIdOf(rule)) == Some(rule)
    decreases |rules|
  {
    if rules[0] != rule {
      RuleWithIdFinds(rules[1..], rule);
    }
  }

  /** The identifiers count up in the order of the table, from 56 for OSCORE and from 69 for EDHOC. */
  lemma IdentifiersInOrder(k: nat)
    requires k < |COAP_RULES|
    ensures RuleIdOf(COAP_RULES[k]) == if k < 5 then 56 + k else 64 + k
  {
  }

  // ---------------------------------------------------------------- compression and decompression

  /** Rule identifier, residues, what the rule does not describe. */
  function Compress(node: Node, p: bytes, width: nat): bits
    requires node.Valid()
  {
    LowBits(IdOf(Choose(node, p)), width) + Content(node, p)
  }

  function Content(node: Node, p: bytes): bits
    requires node.Valid()
  {
    match Choose(node, p)
    case ByDefault => BitsOf(p)
    case ByUdpRule => Residues(UdpRule(node), HeaderFields(p, true)) + BitsOf(Payload(p))
    case ByCoapRule(rule) => CoapContent(node, rule, p)
  }

  function CoapContent(node: Node, rule: CoapRule, p: bytes): bits
    requires node.Valid() && |p| >= HEADERS && CoapRuleMatches(node, rule, p)
  {
    var m := Parse(Payload(p)).value;
    Residues(OuterRule(node, rule), HeaderFields(p, true) + CoapFields(m)) + BitsOf(m.body)
  }

  /** The inverse on the other side. */
  ghost function Decompress(node: Node, s: bits, width: nat): Option<bytes>
    requires node.Valid()
  {
    if |s| < width then None else Open(node, Number(s[..width]), s[width..])
  }

  /** The identifier tells what follows it; computed fields are filled in last. */
  ghost function Open(node: Node, id: nat, s: bits): Option<bytes>
    requires node.Valid()
  {
    if id == IP_UDP_RULE_ID then Rebuild(node, s)
    else if id == NO_COMP_RULE_ID then Some(OctetsOf(s))
    else
      match RuleWithId(COAP_RULES, id)
      case None => None
      case Some(rule) => RebuildCoap(node, rule, s)
  }

  ghost function Rebuild(node: Node, s: bits): Option<bytes>
    requires node.Valid()
  {
    match DecodeFields(UdpRule(node), s)
    case None => None
    case Some((fs, left)) => Assemble(fs, OctetsOf(left))
  }

  ghost function RebuildCoap(node: Node, rule: CoapRule, s: bits): Option<bytes>
    requires node.Valid()
  {
    match DecodeFields(OuterRule(node, rule), s)
    case None => None
    case Some((fs, left)) =>
      if |fs| >= 14 && CoapShaped(fs[14..]) && MessageOf(fs[14..], OctetsOf(left)).Valid() then
        Assemble(fs[..14], Print(MessageOf(fs[14..], OctetsOf(left))))
      else None
  }

  /** Header and payload, with lengths and checksum computed. */
  ghost function Assemble(header: seq<Field>, payload: bytes): (r: Option<bytes>)
    ensures r.Some? ==> |r.value| <= HEADERS + 65527
  {
    if HeaderSized(header) && |payload| <= 65527 then Some(Reframe(BuildHeader(header, false), payload)) else None
  }

  /** What the receiver assembles from its own table and the payload. */
  lemma Assembled(a: Node, b: Node, p: bytes)
    requires a.Valid() && b.Valid() && Mirrored(a, b) && IsIpv6Udp(p) && BetweenPeers(a, p)
    ensures Assemble(Targets(UdpRule(b)), Payload(p)) == Some(Lossy(p)) <==> Coherent(p)
  {
    hide UdpRule, BuildHeader, TargetHeader, Reframe, HeaderSized, BetweenPeers, Lossy, Verifies, Targets;
    TargetsBuild(b);
    if |p| <= HEADERS + 65527 {
      RebuiltIsLossyIff(a, b, p);
    }
  }

  // ---------------------------------------------------------------- the round trips

  /** Under rule 61 nothing but the payload follows the identifier. */
  lemma UdpContentIs(a: Node, p: bytes)
    requires a.Valid() && Choose(a, p) == ByUdpRule
    ensures Content(a, p) == BitsOf(Payload(p))
  {
    hide UdpRule, HeaderFields, FirstMatch, Matches, SendsNothing, Residues, BitsOf;
    UdpRuleSendsNothing(a);
    NothingSent(UdpRule(a), HeaderFields(p, true));
    assert [] + BitsOf(Payload(p)) == BitsOf(Payload(p));
  }

  /** Under a CoAP rule: message identifier, token, what the rule does not know of the options, and
      what follows the options. */
  lemma CoapContentIs(a: Node, rule: CoapRule, p: bytes)
    requires a.Valid() && Choose(a, p) == ByCoapRule(rule)
    ensures CarriesFor(rule, p)
    ensures var m := Parse(Payload(p)).value;
            Content(a, p) == BitsOf(m.id) + BitsOf(m.token) + OptionBits(rule, m.options) + BitsOf(m.body)
  {
    ChooseIff(a, p, rule);
    var m := Parse(Payload(p)).value;
    ParseIff(Payload(p), m);
    hide UdpRule, HeaderFields, CoapFields, CoapEntries, FirstMatch, Matches, SendsNothing, Residues, BitsOf, Parse,
      OptionBits, OptionsApply, Print, BetweenPeers;
    var header, coap := HeaderFields(p, true), CoapFields(m);
    UdpRuleSendsNothing(a);
    NothingSent(UdpRule(a), header);
    ResiduesOf(rule, m);
    ResiduesAppend(UdpRule(a), CoapEntries(rule), header, coap);
    assert [] + Residues(CoapEntries(rule), coap) == Residues(CoapEntries(rule), coap);
  }

  /** From that the receiver has its own header values and the payload. */
  lemma UdpContent(a: Node, b: Node, p: bytes, padding: bits)
    requires a.Valid() && b.Valid() && Choose(a, p) == ByUdpRule && |padding| < 8
    ensures Rebuild(b, Content(a, p) + padding) == Assemble(Targets(UdpRule(b)), Payload(p))
  {
    UdpContentIs(a, p);
    hide UdpRule, Choose, Content, DecodeFields, SendsNothing, Targets, BitsOf, OctetsOf, Assemble;
    UdpRuleSendsNothing(b);
    TargetsRead(UdpRule(b), BitsOf(Payload(p)) + padding);
    OctetsOfBits(Payload(p), padding);
  }

  /** Under a CoAP rule the message is rebuilt octet for octet. */
  lemma CoapContentRead(a: Node, b: Node, rule: CoapRule, p: bytes, padding: bits)
    requires a.Valid() && b.Valid() && |padding| < 8
    requires HEADERS <= |p| < 0x1_0000 + HEADERS && CoapRuleMatches(a, rule, p)
    ensures RebuildCoap(b, rule, CoapContent(a, rule, p) + padding) == Assemble(Targets(UdpRule(b)), Payload(p))
  {
    hide UdpRule, HeaderFields, CoapFields, CoapEntries, Matches, FieldMatches, Encodable, DecodeFields, Residues,
      Targets, BitsOf, OctetsOf, CoapShaped, MessageOf, Parse, Print, Assemble;
    var m := Parse(Payload(p)).value;
    ParseIff(Payload(p), m);
    var header, coap := HeaderFields(p, true), CoapFields(m);
    MatchesAppend(UdpRule(a), CoapEntries(rule), header, coap);
    SameCount(rule, coap);
    forall k | 0 <= k < |coap|
      ensures Encodable(CoapEntries(rule)[k], coap[k].value)
    {
      MessageEncodable(rule, m, k);
    }
    var sent, body := Residues(OuterRule(a, rule), header + coap), BitsOf(m.body);
    CoapFieldsRead(a, b, rule, header, coap, body + padding);
    assert (sent + body) + padding == sent + (body + padding);
    OctetsOfBits(m.body, padding);
    MessageRebuilt(m);
    var fs := Targets(UdpRule(b)) + coap;
    assert fs[..14] == Targets(UdpRule(b)) && fs[14..] == coap;
  }

  /** An identifier that fits the width is read back, and the receiver finds all that follows it. */
  lemma Received(a: Node, b: Node, p: bytes, width: nat, padding: bits)
    requires a.Valid() && b.Valid() && IdOf(Choose(a, p)) < Pow2(width)
    ensures Decompress(b, Compress(a, p, width) + padding, width)
         == Open(b, IdOf(Choose(a, p)), Content(a, p) + padding)
  {
    hide Number, Pow2, Choose, Content, Open, IdOf;
    var id := LowBits(IdOf(Choose(a, p)), width);
    SmallNumber(IdOf(Choose(a, p)), width);
    var s := Compress(a, p, width) + padding;
    assert s == id + (Content(a, p) + padding);
    assert s[..width] == id && s[width..] == Content(a, p) + padding;
  }

  lemma OpensCoap(node: Node, rule: CoapRule, s: bits)
    requires node.Valid()
    ensures Open(node, RuleIdOf(rule), s) == RebuildCoap(node, rule, s)
  {
    hide RebuildCoap;
    AllListed(rule);
    RuleWithIdFinds(COAP_RULES, rule);
  }

  /** Rule 61 between mirrored peers: the packet comes back with flow label 0x12345 and hop limit 64
      and otherwise unchanged, exactly when its lengths and checksum were right. */
  lemma Rule61RoundTripIff(a: Node, b: Node, p: bytes, width: nat, padding: bits)
    requires a.Valid() && b.Valid() && Mirrored(a, b) && |padding| < 8 && IP_UDP_RULE_ID < Pow2(width)
    requires Choose(a, p) == ByUdpRule
    ensures Decompress(b, Compress(a, p, width) + padding, width) == Some(Lossy(p)) <==> Coherent(p)
  {
    ChooseIff(a, p, OscoreRequest);
    Received(a, b, p, width, padding);
    hide Choose, Compress, Decompress, Content, Rebuild, Pow2, BetweenPeers, Lossy, Coherent, Assemble, CarriesFor;
    UdpContent(a, b, p, padding);
    Assembled(a, b, p);
  }

  /** A CoAP rule does the same for its packets: every CoAP octet comes back, the header as under rule 61. */
  lemma CoapRoundTripIff(a: Node, b: Node, rule: CoapRule, p: bytes, width: nat, padding: bits)
    requires a.Valid() && b.Valid() && Mirrored(a, b) && |padding| < 8 && RuleIdOf(rule) < Pow2(width)
    requires Choose(a, p) == ByCoapRule(rule)
    ensures Decompress(b, Compress(a, p, width) + padding, width) == Some(Lossy(p)) <==> Coherent(p)
  {
    ChooseIff(a, p, rule);
    Received(a, b, p, width, padding);
    hide Compress, Decompress, CoapContent, Pow2, BetweenPeers, Lossy, Verifies, CarriesFor, CoapRuleMatches,
      FirstMatch, RebuildCoap, Open, Assemble, Matches, UdpRule;
    var s := CoapContent(a, rule, p) + padding;
    OpensCoap(b, rule, s);
    if |p| < 0x1_0000 + HEADERS {
      CoapContentRead(a, b, rule, p, padding);
      Assembled(a, b, p);
    } else {
      RebuiltFits(b, rule, s);
    }
  }

  lemma RebuiltFits(node: Node, rule: CoapRule, s: bits)
    requires node.Valid()
    ensures RebuildCoap(node, rule, s).Some? ==> |RebuildCoap(node, rule, s).value| <= HEADERS + 65527
  {
    hide OuterRule, DecodeFields, CoapShaped, MessageOf, Print, OctetsOf;
  }

  /** Every other packet, whatever it is, comes back octet for octet under the default rule. */
  lemma DefaultRoundTrip(a: Node, b: Node, p: bytes, width: nat, padding: bits)
    requires a.Valid() && b.Valid() && |padding| < 8 && NO_COMP_RULE_ID < Pow2(width)
    requires !IsIpv6Udp(p) || !BetweenPeers(a, p)
    ensures Decompress(b, Compress(a, p, width) + padding, width) == Some(p)
  {
    ChooseIff(a, p, OscoreRequest);
    Received(a, b, p, width, padding);
    OctetsOfBits(p, padding);
    hide Compress, Decompress, BetweenPeers, Pow2, OctetsOf;
  }

  /** What a packet is on the other side. */
  function OverLink(node: Node, p: bytes): (r: bytes)
    ensures |r| == |p|
  {
    if IsIpv6Udp(p) && BetweenPeers(node, p) then Lossy(p) else p
  }

  /** The whole table: whichever rule is chosen, the packet arrives up to flow label and hop limit when
      a rule describes its headers and unchanged otherwise, except exactly when a rule that computes
      lengths and checksum met wrong ones. */
  lemma RoundTripIff(a: Node, b: Node, p: bytes, width: nat, padding: bits)
    requires a.Valid() && b.Valid() && Mirrored(a, b) && |padding| < 8 && IdOf(Choose(a, p)) < Pow2(width)
    ensures Decompress(b, Compress(a, p, width) + padding, width) == Some(OverLink(a, p)) <==>
              Choose(a, p).ByDefault? || Coherent(p)
  {
    ChooseIff(a, p, OscoreRequest);
    hide Compress, Decompress, Pow2, BetweenPeers, Lossy, Coherent, CarriesFor;
    match Choose(a, p)
    case ByDefault => DefaultRoundTrip(a, b, p, width, padding);
    case ByUdpRule => Rule61RoundTripIff(a, b, p, width, padding);
    case ByCoapRule(rule) => CoapRoundTripIff(a, b, rule, p, width, padding);
  }

  /** The width that config.cmake sets. */
  const RULE_ID_BITS: nat := 8

  /** It holds every identifier of the table, so no condition on the packet's rule remains. */
  lemma ConfiguredRoundTripIff(a: Node, b: Node, p: bytes, padding: bits)
    requires a.Valid() && b.Valid() && Mirrored(a, b) && |padding| < 8
    ensures Decompress(b, Compress(a, p, RULE_ID_BITS) + padding, RULE_ID_BITS) == Some(OverLink(a, p)) <==>
              Choose(a, p).ByDefault? || Coherent(p)
  {
    hide Compress, Decompress, Choose, Coherent, OverLink, IdOf, Pow2, ReadBack;
    OuterRulesFitIff(RULE_ID_BITS);
    ReadBackIff(IdOf(Choose(a, p)), RULE_ID_BITS);
    RoundTripIff(a, b, p, RULE_ID_BITS, padding);
  }
}
