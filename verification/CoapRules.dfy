/** The CoAP rules of outerrules.c: the header entries of rule 61 followed by CoAP entries. */
module CoapRules {
  import opened Bytes
  import opened Coap
  import opened RuleId
  import opened Schc
  import opened OuterRules

  const CON: nat := 0
  const NON: nat := 1
  const ACK: nat := 2

  // Method and response codes, by their names in RFC 7252 and RFC 8132.
  const COAP_POST: nat := 2
  const COAP_FETCH: nat := 5
  const COAP_CHANGED: nat := 68
  const COAP_CONTENT: nat := 69

  // Option numbers, by their names in RFC 7641, RFC 8613 and RFC 7252.
  const OBSERVE: nat := 6
  const OSCORE: nat := 9
  const URI_PATH: nat := 11

  /** ".well-known/edhoc" */
  const EDHOC_PATH: bytes := [46, 119, 101, 108, 108, 45, 107, 110, 111, 119, 110, 47, 101, 100, 104, 111, 99]

  /** Rule entries 14 to 19. */
  function CoapBase(kind: nat, code: nat): (r: seq<RuleField>)
    ensures |r| == 6 && RuleWellFormed(r)
  {
    [ Fixed(CoapVersion, 2, 1, MoEqual),
      Fixed(CoapType, 2, kind, MoEqual),
      Fixed(CoapTokenLength, 4, 2, MoEqual),
      Fixed(CoapCode, 8, code, MoEqual),
      RuleField(CoapMsgId, None, 16, MoIgnore, ValueSent),
      RuleField(CoapToken, None, 16, MoIgnore, ValueSent) ]
  }

  /** An option left out of the residue because it equals the target value. */
  function OptionEqual(number: nat, value: bytes): (r: RuleField)
    ensures r.WellFormed()
  {
    RuleField(CoapOptionField(number), Some(BitsOf(value)), 0, MoEqual, NotSent)
  }

  /** An option sent whole. */
  function OptionSent(number: nat): (r: RuleField)
    ensures r.WellFormed()
  {
    RuleField(CoapOptionField(number), None, 0, MoIgnore, ValueSent)
  }

  /** An option whose first octet is known and whose others are sent. */
  function OptionLsb(number: nat, first: byte): (r: RuleField)
    ensures r.WellFormed()
  {
    RuleField(CoapOptionField(number), Some(BitsOf([first])), 0, MoMsb(8), Lsb)
  }

  function Options(rule: CoapRule): (r: seq<RuleField>)
    ensures RuleWellFormed(r)
  {
    match rule
    case OscoreRequest => [OptionLsb(OSCORE, 0x09)]
    case OscoreResponse => [OptionEqual(OSCORE, [])]
    case OscoreObserveRequest => [OptionEqual(OBSERVE, []), OptionLsb(OSCORE, 0x09)]
    case OscoreObserveResponse => [OptionEqual(OBSERVE, []), OptionEqual(OSCORE, [])]
    case OscoreObserveNotif => [OptionSent(OBSERVE), OptionSent(OSCORE)]
    case EdhocRequest => [OptionEqual(URI_PATH, EDHOC_PATH)]
    case EdhocResponse => []
  }

  datatype CoapRule =
    | OscoreRequest | OscoreResponse | OscoreObserveRequest | OscoreObserveResponse | OscoreObserveNotif
    | EdhocRequest | EdhocResponse

  function RuleIdOf(rule: CoapRule): (id: uint16)
    ensures id in OUTER_RULE_IDS
  {
    match rule
    case OscoreRequest => 56
    case OscoreResponse => 57
    case OscoreObserveRequest => 58
    case OscoreObserveResponse => 59
    case OscoreObserveNotif => 60
    case EdhocRequest => 69
    case EdhocResponse => 70
  }

  function KindOf(rule: CoapRule): nat {
    match rule
    case OscoreRequest | OscoreObserveRequest | EdhocRequest => CON
    case OscoreObserveNotif => NON
    case _ => ACK
  }

  function CodeOf(rule: CoapRule): nat {
    match rule
    case OscoreRequest | EdhocRequest => COAP_POST
    case OscoreObserveRequest => COAP_FETCH
    case OscoreResponse | EdhocResponse => COAP_CHANGED
    case _ => COAP_CONTENT
  }

  function CoapEntries(rule: CoapRule): (r: seq<RuleField>)
    ensures RuleWellFormed(r)
  {
    CoapBase(KindOf(rule), CodeOf(rule)) + Options(rule)
  }

  /** A whole rule, as `get_orangelabs_outer_rules` adds its fields. */
  function OuterRule(node: Node, rule: CoapRule): (r: seq<RuleField>)
    requires node.Valid()
    ensures RuleWellFormed(r)
  {
    UdpRule(node) + CoapEntries(rule)
  }

  // ---------------------------------------------------------------- the fields of a message

  function BaseFields(m: Message): (fs: seq<Field>)
    ensures |fs| == 6
  {
    [ Field(CoapVersion, LowBits(m.version, 2)),
      Field(CoapType, LowBits(m.kind, 2)),
      Field(CoapTokenLength, LowBits(|m.token|, 4)),
      Field(CoapCode, LowBits(m.code, 8)),
      Field(CoapMsgId, BitsOf(m.id)),
      Field(CoapToken, BitsOf(m.token)) ]
  }

  function OptionFields(options: seq<CoapOption>): (fs: seq<Field>)
    ensures |fs| == |options|
    ensures forall k :: 0 <= k < |fs| ==> fs[k] == Field(CoapOptionField(options[k].number), BitsOf(options[k].value))
  {
    seq(|options|, k requires 0 <= k < |options| => Field(CoapOptionField(options[k].number), BitsOf(options[k].value)))
  }

  function CoapFields(m: Message): seq<Field> {
    BaseFields(m) + OptionFields(m.options)
  }

  /** The sizes that a message can be built from, and a token of the announced length. */
  predicate CoapShaped(fs: seq<Field>) {
    && |fs| >= 6 && |fs[3].value| == 8
    && Number(fs[2].value) == |fs[5].value| / 8
    && forall k :: 6 <= k < |fs| ==> fs[k].fid.CoapOptionField?
  }

  /** The message that the fields of a received packet stand for. */
  function MessageOf(fs: seq<Field>, body: bytes): Message
    requires CoapShaped(fs)
  {
    OctetInRange(fs[3].value);
    Message(Number(fs[0].value), Number(fs[1].value), Number(fs[3].value), OctetsOf(fs[4].value),
            OctetsOf(fs[5].value), OptionsFrom(fs[6..]), body)
  }

  function OptionsFrom(fs: seq<Field>): (options: seq<CoapOption>)
    requires forall k :: 0 <= k < |fs| ==> fs[k].fid.CoapOptionField?
    ensures |options| == |fs|
    ensures forall k :: 0 <= k < |fs| ==> options[k] == CoapOption(fs[k].fid.number, OctetsOf(fs[k].value))
  {
    seq(|fs|, k requires 0 <= k < |fs| => CoapOption(fs[k].fid.number, OctetsOf(fs[k].value)))
  }

  lemma OptionsRebuilt(options: seq<CoapOption>)
    ensures OptionsFrom(OptionFields(options)) == options
  {
    hide BitsOf, OctetsOf;
    forall k | 0 <= k < |options|
      ensures OptionsFrom(OptionFields(options))[k] == options[k]
    {
      OctetsBack(options[k].value);
    }
  }

  /** A message can be rebuilt from its fields. */
  lemma MessageRebuilt(m: Message)
    requires m.Valid()
    ensures CoapShaped(CoapFields(m)) && MessageOf(CoapFields(m), m.body) == m
  {
    hide LowBits, BitsOf, OctetsOf, Number, Pow2, OptionsFit;
    CoapPowers();
    SmallNumber(m.version, 2);
    SmallNumber(m.kind, 2);
    SmallNumber(|m.token|, 4);
    SmallNumber(m.code, 8);
    OctetsBack(m.id);
    OctetsBack(m.token);
    OptionsRebuilt(m.options);
    assert CoapFields(m)[6..] == OptionFields(m.options);
  }

  lemma CoapPowers()
    ensures Pow2(2) == 4 && Pow2(4) == 0x10 && Pow2(8) == 0x100
  {
    assert Pow2(3) == 8 && Pow2(5) == 0x20;
  }

  // ---------------------------------------------------------------- when a rule applies

  /** A rule on a message: version 1, two octets of token, the rule's type, code and options. */
  predicate Applies(rule: CoapRule, m: Message) {
    && m.version == 1 && |m.token| == 2 && m.kind == KindOf(rule) && m.code == CodeOf(rule)
    && OptionsApply(rule, m.options)
  }

  predicate OptionsApply(rule: CoapRule, options: seq<CoapOption>) {
    match rule
    case OscoreRequest => |options| == 1 && IsOscoreRequest(options[0])
    case OscoreResponse => options == [CoapOption(OSCORE, [])]
    case OscoreObserveRequest => |options| == 2 && options[0] == CoapOption(OBSERVE, []) && IsOscoreRequest(options[1])
    case OscoreObserveResponse => options == [CoapOption(OBSERVE, []), CoapOption(OSCORE, [])]
    case OscoreObserveNotif => |options| == 2 && options[0].number == OBSERVE && options[1].number == OSCORE
    case EdhocRequest => options == [CoapOption(URI_PATH, EDHOC_PATH)]
    case EdhocResponse => options == []
  }

  predicate IsOscoreRequest(o: CoapOption) {
    o.number == OSCORE && o.value != [] && o.value[0] == 0x09
  }

  /** Matching the entries of a rule, field by field, amounts to this. */
  lemma AppliesIff(rule: CoapRule, m: Message)
    requires m.Valid()
    ensures Matches(CoapEntries(rule), CoapFields(m)) <==> Applies(rule, m)
  {
    hide KindOf, CodeOf, CoapBase, Options, BaseFields, OptionFields, OptionsApply, Matches;
    KindAndCode(rule);
    MatchesAppend(CoapBase(KindOf(rule), CodeOf(rule)), Options(rule), BaseFields(m), OptionFields(m.options));
    BaseAppliesIff(KindOf(rule), CodeOf(rule), m);
    OptionsApplyIff(rule, m.options);
  }

  lemma KindAndCode(rule: CoapRule)
    ensures KindOf(rule) < 4 && CodeOf(rule) < 0x100
  {
  }

  lemma MatchesAppend(r1: seq<RuleField>, r2: seq<RuleField>, f1: seq<Field>, f2: seq<Field>)
    requires RuleWellFormed(r1) && RuleWellFormed(r2) && |r1| == |f1|
    ensures Matches(r1 + r2, f1 + f2) <==> Matches(r1, f1) && Matches(r2, f2)
  {
    hide FieldMatches;
    if Matches(r1 + r2, f1 + f2) {
      forall k | 0 <= k < |r1|
        ensures FieldMatches(r1[k], f1[k])
      {
        assert FieldMatches((r1 + r2)[k], (f1 + f2)[k]);
      }
      forall k | 0 <= k < |r2|
        ensures FieldMatches(r2[k], f2[k])
      {
        assert FieldMatches((r1 + r2)[|r1| + k], (f1 + f2)[|r1| + k]);
      }
    }
  }

  lemma BaseAppliesIff(kind: nat, code: nat, m: Message)
    requires m.Valid() && kind < 4 && code < 0x100
    ensures Matches(CoapBase(kind, code), BaseFields(m)) <==>
              m.version == 1 && |m.token| == 2 && m.kind == kind && m.code == code
  {
    CoapPowers();
    hide FieldMatches, CoapBase, BaseFields, OptionsFit, Pow2;
    FixedIff(CoapVersion, 2, 1, m.version);
    FixedIff(CoapType, 2, kind, m.kind);
    FixedIff(CoapTokenLength, 4, 2, |m.token|);
    FixedIff(CoapCode, 8, code, m.code);
    SentMatches(m);
    BaseEntries(kind, code, m);
    MatchesSix(CoapBase(kind, code), BaseFields(m));
  }

  lemma SentMatches(m: Message)
    requires m.Valid()
    ensures FieldMatches(RuleField(CoapMsgId, None, 16, MoIgnore, ValueSent), Field(CoapMsgId, BitsOf(m.id)))
    ensures FieldMatches(RuleField(CoapToken, None, 16, MoIgnore, ValueSent), Field(CoapToken, BitsOf(m.token)))
            <==> |m.token| == 2
  {
    hide BitsOf, OptionsFit;
  }

  lemma BaseEntries(kind: nat, code: nat, m: Message)
    ensures var (r, fs) := (CoapBase(kind, code), BaseFields(m));
            && r[0] == Fixed(CoapVersion, 2, 1, MoEqual) && fs[0] == Field(CoapVersion, LowBits(m.version, 2))
            && r[1] == Fixed(CoapType, 2, kind, MoEqual) && fs[1] == Field(CoapType, LowBits(m.kind, 2))
            && r[2] == Fixed(CoapTokenLength, 4, 2, MoEqual) && fs[2] == Field(CoapTokenLength, LowBits(|m.token|, 4))
            && r[3] == Fixed(CoapCode, 8, code, MoEqual) && fs[3] == Field(CoapCode, LowBits(m.code, 8))
            && r[4] == RuleField(CoapMsgId, None, 16, MoIgnore, ValueSent) && fs[4] == Field(CoapMsgId, BitsOf(m.id))
            && r[5] == RuleField(CoapToken, None, 16, MoIgnore, ValueSent) && fs[5] == Field(CoapToken, BitsOf(m.token))
  {
    hide LowBits, BitsOf, Fixed;
  }

  lemma MatchesSix(r: seq<RuleField>, fs: seq<Field>)
    requires RuleWellFormed(r) && |r| == |fs| == 6
    ensures Matches(r, fs) <==>
              && FieldMatches(r[0], fs[0]) && FieldMatches(r[1], fs[1]) && FieldMatches(r[2], fs[2])
              && FieldMatches(r[3], fs[3]) && FieldMatches(r[4], fs[4]) && FieldMatches(r[5], fs[5])
  {
    hide FieldMatches;
  }

  lemma OptionsApplyIff(rule: CoapRule, options: seq<CoapOption>)
    ensures Matches(Options(rule), OptionFields(options)) <==> OptionsApply(rule, options)
  {
    hide BitsOf, OptionEqual, OptionSent, OptionLsb, FieldMatches;
    forall k | 0 <= k < |options|
      ensures FieldMatches(OptionEqual(OSCORE, []), OptionFields(options)[k]) <==>
                options[k] == CoapOption(OSCORE, [])
      ensures FieldMatches(OptionEqual(OBSERVE, []), OptionFields(options)[k]) <==>
                options[k] == CoapOption(OBSERVE, [])
      ensures FieldMatches(OptionEqual(URI_PATH, EDHOC_PATH), OptionFields(options)[k]) <==>
                options[k] == CoapOption(URI_PATH, EDHOC_PATH)
      ensures FieldMatches(OptionSent(OSCORE), OptionFields(options)[k]) <==> options[k].number == OSCORE
      ensures FieldMatches(OptionSent(OBSERVE), OptionFields(options)[k]) <==> options[k].number == OBSERVE
      ensures FieldMatches(OptionLsb(OSCORE, 0x09), OptionFields(options)[k]) <==> IsOscoreRequest(options[k])
    {
      OptionEqualIff(OSCORE, [], options[k]);
      OptionEqualIff(OBSERVE, [], options[k]);
      OptionEqualIff(URI_PATH, EDHOC_PATH, options[k]);
      OptionSentIff(OSCORE, options[k]);
      OptionSentIff(OBSERVE, options[k]);
      OptionLsbIff(OSCORE, 0x09, options[k]);
    }
    assert Matches(Options(rule), OptionFields(options)) ==> |Options(rule)| == |options|;
  }

  lemma OptionEqualIff(number: nat, value: bytes, o: CoapOption)
    ensures FieldMatches(OptionEqual(number, value), Field(CoapOptionField(o.number), BitsOf(o.value))) <==>
              o == CoapOption(number, value)
  {
    SameBits(o.value, value);
  }

  lemma OptionSentIff(number: nat, o: CoapOption)
    ensures FieldMatches(OptionSent(number), Field(CoapOptionField(o.number), BitsOf(o.value))) <==> o.number == number
  {
  }

  lemma OptionLsbIff(number: nat, first: byte, o: CoapOption)
    ensures FieldMatches(OptionLsb(number, first), Field(CoapOptionField(o.number), BitsOf(o.value))) <==>
              o.number == number && o.value != [] && o.value[0] == first
  {
    FirstOctetBits([first]);
    if o.value != [] {
      FirstOctetBits(o.value);
      hide BitsOf, LowBits, Pow2;
      CoapPowers();
      SameLowBits(o.value[0], first, 8);
    }
  }

  lemma FirstOctetBits(b: bytes)
    requires b != []
    ensures BitsOf(b)[..8] == LowBits(b[0], 8)
  {
  }

  // ---------------------------------------------------------------- nothing of CoAP is lost

  predicate Lossless(rule: seq<RuleField>) {
    forall k :: 0 <= k < |rule| ==> !rule[k].Computed() && (rule[k].cda.NotSent? ==> rule[k].mo.MoEqual?)
  }

  lemma CoapEntriesLossless(rule: CoapRule)
    ensures Lossless(CoapEntries(rule))
  {
    hide KindOf, CodeOf;
    CoapBaseLossless(KindOf(rule), CodeOf(rule));
    OptionsLossless(rule);
    hide CoapBase, Options;
  }

  lemma CoapBaseLossless(kind: nat, code: nat)
    ensures Lossless(CoapBase(kind, code))
  {
    hide LowBits, Fixed;
  }

  lemma OptionsLossless(rule: CoapRule)
    ensures Lossless(Options(rule))
  {
    hide BitsOf;
  }

  lemma LosslessRestores(rule: seq<RuleField>, fs: seq<Field>)
    requires RuleWellFormed(rule) && Lossless(rule) && Matches(rule, fs)
    ensures Restored(rule, fs) == fs
  {
  }

  /** Between two configured sides, whatever CoAP rule is used: the receiver has every CoAP field
      exactly, the header values of its own table, and what follows the residues. */
  lemma CoapFieldsRead(a: Node, b: Node, rule: CoapRule, header: seq<Field>, coap: seq<Field>, rest: bits)
    requires a.Valid() && b.Valid()
    requires |header| == 14 && Matches(CoapEntries(rule), coap)
    requires forall k :: 0 <= k < |coap| ==> Encodable(CoapEntries(rule)[k], coap[k].value)
    ensures DecodeFields(OuterRule(b, rule), Residues(OuterRule(a, rule), header + coap) + rest)
         == Some((Targets(UdpRule(b)) + coap, rest))
  {
    hide UdpRule, CoapEntries, Matches, Encodable, DecodeFields, Residues, Targets, Restored, Lossless, SendsNothing;
    var entries := CoapEntries(rule);
    UdpRuleSendsNothing(a);
    UdpRuleSendsNothing(b);
    NothingSent(UdpRule(a), header);
    CoapEntriesLossless(rule);
    SameCount(rule, coap);
    ResiduesAppend(UdpRule(a), entries, header, coap);
    var s := Residues(entries, coap) + rest;
    assert [] + Residues(entries, coap) == Residues(entries, coap);
    TargetsRead(UdpRule(b), s);
    ResiduesRead(entries, coap, rest);
    LosslessRestores(entries, coap);
    DecodeFieldsAppend(UdpRule(b), entries, s);
  }

  lemma SameCount(rule: CoapRule, coap: seq<Field>)
    requires Matches(CoapEntries(rule), coap)
    ensures |CoapEntries(rule)| == |coap|
  {
  }

  /** Whatever fits an IPv6 packet has residues that the size code can express. */
  lemma MessageEncodable(rule: CoapRule, m: Message, k: nat)
    requires m.Valid() && |Print(m)| < 0x1_0000
    requires k < |CoapFields(m)| && k < |CoapEntries(rule)|
    ensures Encodable(CoapEntries(rule)[k], CoapFields(m)[k].value)
  {
    hide BaseFields, BitsOf, Encodable, OptionsFit, PrintOptions, CoapBase, Options;
    FixedLengths(KindOf(rule), CodeOf(rule));
    OptionsUseOctets(rule);
    if k < 6 {
      FixedEncodable(CoapEntries(rule)[k], CoapFields(m)[k].value);
    } else {
      assert CoapEntries(rule)[k] == Options(rule)[k - 6];
      OptionValueBound(m.options, 0, k - 6);
      OctetsEncodable(Options(rule)[k - 6], m.options[k - 6].value);
    }
  }

  lemma FixedLengths(kind: nat, code: nat)
    ensures forall k :: 0 <= k < 6 ==> CoapBase(kind, code)[k].len > 0
  {
    hide LowBits, Fixed;
  }

  lemma OptionsUseOctets(rule: CoapRule)
    ensures forall k :: 0 <= k < |Options(rule)| ==> Options(rule)[k].mo.MoMsb? ==> Options(rule)[k].mo.n == 8
  {
    hide BitsOf;
  }

  lemma FixedEncodable(rf: RuleField, v: bits)
    requires rf.len > 0
    ensures Encodable(rf, v)
  {
  }

  lemma OctetsEncodable(rf: RuleField, v: bytes)
    requires |v| < 0x1_0000 && (rf.mo.MoMsb? ==> rf.mo.n == 8)
    ensures Encodable(rf, BitsOf(v))
  {
    hide BitsOf;
    EightTimes(|v|);
    if v != [] {
      EightTimes(|v| - 1);
    }
  }

  lemma EightTimes(n: nat)
    ensures 8 * n % 8 == 0 && 8 * n / 8 == n
  {
  }

  lemma {:induction false} OptionValueBound(options: seq<CoapOption>, last: nat, k: nat)
    requires OptionsFit(options, last) && k < |options|
    ensures |options[k].value| <= |PrintOptions(options, last)|
    decreases |options|
  {
    if k > 0 {
      OptionValueBound(options[1..], options[0].number, k - 1);
    }
  }

  // ---------------------------------------------------------------- what is on the wire

  /** The first two octets of the messages a rule applies to: version, type, token length and code. */
  lemma AppliesToOctets(rule: CoapRule, m: Message)
    requires m.Valid() && Applies(rule, m)
    ensures Print(m)[..2] == match rule
                             case OscoreRequest | EdhocRequest => [0x42, 0x02]
                             case OscoreObserveRequest => [0x42, 0x05]
                             case OscoreResponse | EdhocResponse => [0x62, 0x44]
                             case OscoreObserveResponse => [0x62, 0x45]
                             case OscoreObserveNotif => [0x52, 0x45]
  {
    hide OptionsFit, OptionsApply, PrintOptions;
  }

  /** The option octets of those messages: numbers 6, 9 and 11 as differences, then the lengths. */
  lemma AppliesToOptions(rule: CoapRule, options: seq<CoapOption>)
    requires OptionsFit(options, 0) && OptionsApply(rule, options)
    ensures match rule
            case OscoreRequest => PrintOptions(options, 0)[0] / 0x10 == 9
            case OscoreResponse => PrintOptions(options, 0) == [0x90]
            case OscoreObserveRequest =>
              |PrintOptions(options, 0)| > 1
              && PrintOptions(options, 0)[0] == 0x60 && PrintOptions(options, 0)[1] / 0x10 == 3
            case OscoreObserveResponse => PrintOptions(options, 0) == [0x60, 0x30]
            case OscoreObserveNotif => PrintOptions(options, 0)[0] / 0x10 == 6
            case EdhocRequest => PrintOptions(options, 0) == [0xBD, 0x04] + EDHOC_PATH
            case EdhocResponse => PrintOptions(options, 0) == []
  {
    hide PrintOption;
    if |options| > 0 {
      OptionOctets(options[0], 0);
      var next := options[0].number;
      assert PrintOptions(options, 0) == PrintOption(options[0], 0) + PrintOptions(options[1..], next);
      if |options| > 1 {
        OptionOctets(options[1], next);
        assert PrintOptions(options[1..], next)
            == PrintOption(options[1], next) + PrintOptions(options[2..], options[1].number);
      }
    }
  }

  lemma OptionOctets(o: CoapOption, last: nat)
    requires OptionFits(o, last) && o.number - last < 13
    ensures PrintOption(o, last)[0] / 0x10 == o.number - last
    ensures o.value == [] ==> PrintOption(o, last) == [(o.number - last) * 0x10]
    ensures |o.value| == 17 ==> PrintOption(o, last) == [(o.number - last) * 0x10 + 13, 4] + o.value
  {
  }

  /** The path of an EDHOC request, spelled out. */
  lemma EdhocPathSpelled()
    ensures |EDHOC_PATH| == |".well-known/edhoc"|
    ensures forall k :: 0 <= k < |EDHOC_PATH| ==> EDHOC_PATH[k] == ".well-known/edhoc"[k] as int
  {
  }

  /** The residue of the options: of a known first octet only the rest, and a notification's options whole. */
  function OptionBits(rule: CoapRule, options: seq<CoapOption>): bits
    requires OptionsApply(rule, options)
  {
    match rule
    case OscoreRequest => SizedBits(options[0].value[1..])
    case OscoreObserveRequest => SizedBits(options[1].value[1..])
    case OscoreObserveNotif => SizedBits(options[0].value) + SizedBits(options[1].value)
    case _ => []
  }

  function SizedBits(value: bytes): bits {
    SizeCode(|value|) + BitsOf(value)
  }

  /** All that a CoAP rule sends of a message: message identifier, token, and these options. */
  lemma ResiduesOf(rule: CoapRule, m: Message)
    requires m.Valid() && Applies(rule, m)
    ensures |CoapEntries(rule)| == |CoapFields(m)|
    ensures Residues(CoapEntries(rule), CoapFields(m)) == BitsOf(m.id) + BitsOf(m.token) + OptionBits(rule, m.options)
  {
    hide CoapBase, BaseFields, Options, OptionFields, Residues, BitsOf, OptionsApply, OptionsFit, OptionBits, Applies;
    assert OptionsApply(rule, m.options) by { AppliesParts(rule, m); }
    OptionResidues(rule, m.options);
    BaseResidues(KindOf(rule), CodeOf(rule), m);
    ResiduesAppend(CoapBase(KindOf(rule), CodeOf(rule)), Options(rule), BaseFields(m), OptionFields(m.options));
  }

  lemma AppliesParts(rule: CoapRule, m: Message)
    requires Applies(rule, m)
    ensures OptionsApply(rule, m.options)
  {
  }

  lemma BaseResidues(kind: nat, code: nat, m: Message)
    ensures Residues(CoapBase(kind, code), BaseFields(m)) == BitsOf(m.id) + BitsOf(m.token)
  {
    var r, fs := CoapBase(kind, code), BaseFields(m);
    BaseEntries(kind, code, m);
    FixedNotSent(kind, code);
    hide BitsOf, CoapBase, BaseFields, Residues, Residue;
    NothingSent(r[..4], fs[..4]);
    assert r == r[..4] + r[4..] && fs == fs[..4] + fs[4..];
    ResiduesAppend(r[..4], r[4..], fs[..4], fs[4..]);
    TwoResidues(r[4..], fs[4..]);
    FixedResidue(r[4], m.id);
    FixedResidue(r[5], m.token);
  }

  lemma FixedNotSent(kind: nat, code: nat)
    ensures SendsNothing(CoapBase(kind, code)[..4])
  {
    hide LowBits, Fixed;
  }

  lemma FixedResidue(rf: RuleField, v: bytes)
    requires rf.cda.ValueSent? && rf.len > 0
    ensures Residue(rf, BitsOf(v)) == BitsOf(v)
  {
  }

  lemma TwoResidues(r: seq<RuleField>, fs: seq<Field>)
    requires |r| == |fs| <= 2
    ensures Residues(r, fs) == match |r|
                               case 0 => []
                               case 1 => Residue(r[0], fs[0].value)
                               case _ => Residue(r[0], fs[0].value) + Residue(r[1], fs[1].value)
  {
    hide Residue;
    if |r| > 0 {
      assert Residues(r[1..], fs[1..])
          == if |r| == 1 then [] else Residue(r[1], fs[1].value) + Residues(r[2..], fs[2..]);
    }
  }

  lemma OptionResidues(rule: CoapRule, options: seq<CoapOption>)
    requires OptionsApply(rule, options)
    ensures |Options(rule)| == |options|
    ensures Residues(Options(rule), OptionFields(options)) == OptionBits(rule, options)
  {
    hide BitsOf, Residues, Residue, OptionEqual, OptionSent, OptionLsb, SizedBits;
    TwoResidues(Options(rule), OptionFields(options));
    forall o: CoapOption, number: nat, known: bytes
      ensures Residue(OptionEqual(number, known), BitsOf(o.value)) == []
    {
      EqualResidue(number, known, o.value);
    }
    forall o: CoapOption, number: nat
      ensures Residue(OptionSent(number), BitsOf(o.value)) == SizedBits(o.value)
      ensures o.value != [] ==> Residue(OptionLsb(number, 0x09), BitsOf(o.value)) == SizedBits(o.value[1..])
    {
      SentResidue(number, o.value);
      if o.value != [] {
        LsbResidue(number, 0x09, o.value);
      }
    }
  }

  lemma EqualResidue(number: nat, known: bytes, value: bytes)
    ensures Residue(OptionEqual(number, known), BitsOf(value)) == []
  {
  }

  lemma SentResidue(number: nat, value: bytes)
    ensures Residue(OptionSent(number), BitsOf(value)) == SizedBits(value)
  {
    hide BitsOf, SizeCode;
    EightTimes(|value|);
  }

  lemma LsbResidue(number: nat, first: byte, value: bytes)
    requires value != []
    ensures Residue(OptionLsb(number, first), BitsOf(value)) == SizedBits(value[1..])
  {
    assert BitsOf(value)[8..] == BitsOf(value[1..]);
    hide BitsOf, SizeCode;
    EightTimes(|value| - 1);
  }

  // ---------------------------------------------------------------- the rules exclude each other

  /** No other rule has the type, the code and the options of a rule. */
  lemma RulesExcludeEachOther(r: CoapRule, t: CoapRule, coap: seq<Field>)
    requires Matches(CoapEntries(r), coap) && Matches(CoapEntries(t), coap)
    ensures r == t
  {
    hide CoapEntries, Matches, LowBits, Pow2, KindOf, CodeOf;
    Signature(r, coap);
    Signature(t, coap);
    CoapPowers();
    KindAndCode(r);
    KindAndCode(t);
    SameLowBits(KindOf(r), KindOf(t), 2);
    SameLowBits(CodeOf(r), CodeOf(t), 8);
    TellApart(r, t);
  }

  /** The option numbers a rule expects. */
  function OptionNumbers(rule: CoapRule): seq<nat> {
    match rule
    case EdhocResponse => []
    case EdhocRequest => [URI_PATH]
    case OscoreRequest | OscoreResponse => [OSCORE]
    case _ => [OBSERVE, OSCORE]
  }

  lemma TellApart(r: CoapRule, t: CoapRule)
    requires KindOf(r) == KindOf(t) && CodeOf(r) == CodeOf(t) && OptionNumbers(r) == OptionNumbers(t)
    ensures r == t
  {
    assert [URI_PATH][0] != [OSCORE][0];
  }

  lemma Signature(rule: CoapRule, coap: seq<Field>)
    requires Matches(CoapEntries(rule), coap)
    ensures |coap| == 6 + |OptionNumbers(rule)|
    ensures coap[1].value == LowBits(KindOf(rule), 2) && coap[3].value == LowBits(CodeOf(rule), 8)
    ensures forall k :: 0 <= k < |OptionNumbers(rule)| ==> coap[6 + k].fid == CoapOptionField(OptionNumbers(rule)[k])
  {
    hide CoapBase, Options, KindOf, CodeOf, OptionNumbers, FieldMatches;
    NumbersOfOptions(rule);
    assert coap == coap[..6] + coap[6..];
    MatchesAppend(CoapBase(KindOf(rule), CodeOf(rule)), Options(rule), coap[..6], coap[6..]);
    BaseSignature(KindOf(rule), CodeOf(rule), coap[..6]);
    forall k | 0 <= k < |OptionNumbers(rule)|
      ensures coap[6 + k].fid == CoapOptionField(OptionNumbers(rule)[k])
    {
      assert FieldMatches(Options(rule)[k], coap[6..][k]);
      SameFid(Options(rule)[k], coap[6..][k]);
    }
  }

  lemma SameFid(rf: RuleField, f: Field)
    requires rf.WellFormed() && FieldMatches(rf, f)
    ensures f.fid == rf.fid
  {
  }

  lemma NumbersOfOptions(rule: CoapRule)
    ensures |Options(rule)| == |OptionNumbers(rule)|
    ensures forall k :: 0 <= k < |OptionNumbers(rule)| ==>
              Options(rule)[k].fid == CoapOptionField(OptionNumbers(rule)[k])
  {
    hide BitsOf;
  }

  lemma BaseSignature(kind: nat, code: nat, fs: seq<Field>)
    requires Matches(CoapBase(kind, code), fs)
    ensures |fs| == 6 && fs[1].value == LowBits(kind, 2) && fs[3].value == LowBits(code, 8)
  {
    hide LowBits, Fixed;
    assert FieldMatches(CoapBase(kind, code)[1], fs[1]) && FieldMatches(CoapBase(kind, code)[3], fs[3]);
  }
}
