/** Matching, residues and their inverse for SCHC compression rules (sections 7.2 to 7.4 of RFC 8724).
    The SDK that interprets the rule table is not part of this model; this module supplies what the
    standard says it does. */
module Schc {
  import opened Bytes
  import opened RuleId

  type bits = seq<bool>

  datatype Fid =
    | Ipv6Version | Ipv6TrafficClass | Ipv6FlowLabel | Ipv6PayloadLength | Ipv6NextHeader | Ipv6HopLimit
    | Ipv6PrefixDev | Ipv6IidDev | Ipv6PrefixApp | Ipv6IidApp
    | UdpPortDev | UdpPortApp | UdpLength | UdpChecksum
    | CoapVersion | CoapType | CoapTokenLength | CoapCode | CoapMsgId | CoapToken
    | CoapOptionField(number: nat)

  datatype Mo = MoEqual | MoIgnore | MoMsb(n: nat)

  datatype Cda = NotSent | ValueSent | Lsb | ComputeLength | ComputeChecksum

  /** A rule entry; length 0 stands for a variable length. */
  datatype RuleField = RuleField(fid: Fid, tv: Option<bits>, len: nat, mo: Mo, cda: Cda) {
    predicate Computed() {
      cda.ComputeLength? || cda.ComputeChecksum?
    }

    predicate WellFormed() {
      && (cda.NotSent? ==> tv.Some? && (len > 0 ==> |tv.value| == len))
      && (Computed() ==> len > 0)
      && (cda.Lsb? ==> mo.MoMsb?)
      && (mo.MoMsb? ==> tv.Some? && mo.n <= |tv.value| && (len > 0 ==> mo.n <= len))
    }
  }

  datatype Field = Field(fid: Fid, value: bits)

  // ---------------------------------------------------------------- matching

  predicate FieldMatches(rf: RuleField, f: Field)
    requires rf.WellFormed()
  {
    && f.fid == rf.fid
    && (rf.len > 0 ==> |f.value| == rf.len)
    && match rf.mo
       case MoEqual => rf.tv == Some(f.value)
       case MoIgnore => true
       case MoMsb(n) => n <= |f.value| && f.value[..n] == rf.tv.value[..n]
  }

  predicate RuleWellFormed(rule: seq<RuleField>) {
    forall k :: 0 <= k < |rule| ==> rule[k].WellFormed()
  }

  predicate Matches(rule: seq<RuleField>, fs: seq<Field>)
    requires RuleWellFormed(rule)
  {
    |rule| == |fs| && forall k :: 0 <= k < |rule| ==> FieldMatches(rule[k], fs[k])
  }

  // ---------------------------------------------------------------- residues

  /** The bits of a value that the action sends. */
  function SentBits(rf: RuleField, v: bits): bits {
    match rf.cda
    case ValueSent => v
    case Lsb => if rf.mo.MoMsb? && rf.mo.n <= |v| then v[rf.mo.n..] else v
    case _ => []
  }

  /** Section 7.4.2: the size of a variable-length residue in 4, 12 or 28 bits. */
  function SizeCode(n: nat): bits {
    if n < 15 then LowBits(n, 4)
    else if n < 255 then LowBits(15, 4) + LowBits(n, 8)
    else LowBits(15, 4) + LowBits(255, 8) + LowBits(n, 16)
  }

  /** A variable-length residue is a whole number of octets that the size code can express. */
  predicate Encodable(rf: RuleField, v: bits) {
    rf.len == 0 && (rf.cda.ValueSent? || rf.cda.Lsb?) ==>
      |SentBits(rf, v)| % 8 == 0 && |SentBits(rf, v)| / 8 < 0x1_0000
  }

  function Residue(rf: RuleField, v: bits): bits {
    if !(rf.cda.ValueSent? || rf.cda.Lsb?) then []
    else if rf.len > 0 then SentBits(rf, v)
    else SizeCode(|SentBits(rf, v)| / 8) + SentBits(rf, v)
  }

  function Residues(rule: seq<RuleField>, fs: seq<Field>): bits
    requires |rule| == |fs|
  {
    if rule == [] then [] else Residue(rule[0], fs[0].value) + Residues(rule[1..], fs[1..])
  }

  // ---------------------------------------------------------------- reading them back

  function Take(s: bits, n: nat): Option<(bits, bits)> {
    if n <= |s| then Some((s[..n], s[n..])) else None
  }

  /** A size code, and what follows it. */
  function ReadSize(s: bits): Option<(nat, bits)> {
    if |s| < 4 then None
    else if Number(s[..4]) < 15 then Some((Number(s[..4]), s[4..]))
    else if |s| < 12 then None
    else if Number(s[4..12]) < 255 then Some((Number(s[4..12]), s[12..]))
    else if |s| < 28 then None
    else Some((Number(s[12..28]), s[28..]))
  }

  function TakeResidue(rf: RuleField, fixed: nat, s: bits): Option<(bits, bits)> {
    if rf.len > 0 then Take(s, fixed)
    else
      match ReadSize(s)
      case None => None
      case Some((n, rest)) => Take(rest, 8 * n)
  }

  /** The value of one field, with zeros where it is still to be computed. */
  function DecodeField(rf: RuleField, s: bits): Option<(bits, bits)>
    requires rf.WellFormed()
  {
    match rf.cda
    case NotSent => Some((rf.tv.value, s))
    case ValueSent => TakeResidue(rf, rf.len, s)
    case Lsb =>
      (match TakeResidue(rf, if rf.len > 0 then rf.len - rf.mo.n else 0, s)
       case None => None
       case Some((low, rest)) => Some((rf.tv.value[..rf.mo.n] + low, rest)))
    case _ => Some((Falses(rf.len), s))
  }

  function DecodeFields(rule: seq<RuleField>, s: bits): Option<(seq<Field>, bits)>
    requires RuleWellFormed(rule)
    decreases |rule|
  {
    if rule == [] then Some(([], s))
    else
      match DecodeField(rule[0], s)
      case None => None
      case Some((v, rest)) =>
        match DecodeFields(rule[1..], rest)
        case None => None
        case Some((fs, left)) => Some(([Field(rule[0].fid, v)] + fs, left))
  }

  // ---------------------------------------------------------------- the round trip

  /** What the receiver has after reading the residues: target values where nothing was sent,
      zeros where the value is to be computed, the sender's value everywhere else. */
  function Restored(rule: seq<RuleField>, fs: seq<Field>): (r: seq<Field>)
    requires RuleWellFormed(rule) && |rule| == |fs|
    ensures |r| == |fs|
    ensures forall k :: 0 <= k < |fs| ==> r[k] == RestoredField(rule[k], fs[k])
  {
    if rule == [] then [] else [RestoredField(rule[0], fs[0])] + Restored(rule[1..], fs[1..])
  }

  function RestoredField(rf: RuleField, f: Field): Field
    requires rf.WellFormed()
  {
    if rf.cda.NotSent? then f.(value := rf.tv.value)
    else if rf.Computed() then f.(value := Falses(rf.len))
    else f
  }

  lemma SizeCodeRead(n: nat, rest: bits)
    requires n < 0x1_0000
    ensures ReadSize(SizeCode(n) + rest) == Some((n, rest))
  {
    hide LowBits, Number, Pow2;
    Pow2Values();
    var s := SizeCode(n) + rest;
    if n < 15 {
      SmallNumber(n, 4);
      assert s[..4] == LowBits(n, 4) && s[4..] == rest;
    } else if n < 255 {
      SmallNumber(15, 4);
      SmallNumber(n, 8);
      assert s[..4] == LowBits(15, 4) && s[4..12] == LowBits(n, 8) && s[12..] == rest;
    } else {
      SmallNumber(15, 4);
      SmallNumber(255, 8);
      SmallNumber(n, 16);
      assert s[..4] == LowBits(15, 4) && s[4..12] == LowBits(255, 8) && s[12..28] == LowBits(n, 16) && s[28..] == rest;
    }
  }

  /** It takes 4 bits up to 14 octets, 12 bits up to 254 and 28 bits beyond. */
  lemma SizeCodeLength(n: nat)
    ensures |SizeCode(n)| == if n < 15 then 4 else if n < 255 then 12 else 28
  {
  }

  lemma Pow2Values()
    ensures Pow2(4) == 0x10 && Pow2(8) == 0x100 && Pow2(16) == 0x1_0000
  {
    assert Pow2(12) == 0x10 * Pow2(8);
  }

  lemma SmallNumber(n: nat, k: nat)
    requires n < Pow2(k)
    ensures Number(LowBits(n, k)) == n
  {
  }

  lemma ResidueRead(rf: RuleField, sent: bits, rest: bits)
    requires rf.len == 0 ==> |sent| % 8 == 0 && |sent| / 8 < 0x1_0000
    ensures TakeResidue(rf, |sent|, (if rf.len > 0 then sent else SizeCode(|sent| / 8) + sent) + rest)
         == Some((sent, rest))
  {
    hide SizeCode, ReadSize;
    assert (sent + rest)[..|sent|] == sent && (sent + rest)[|sent|..] == rest;
    if rf.len == 0 {
      SizeCodeRead(|sent| / 8, sent + rest);
      assert (SizeCode(|sent| / 8) + sent) + rest == SizeCode(|sent| / 8) + (sent + rest);
    }
  }

  lemma FieldRead(rf: RuleField, f: Field, rest: bits)
    requires rf.WellFormed() && FieldMatches(rf, f) && Encodable(rf, f.value)
    ensures DecodeField(rf, Residue(rf, f.value) + rest) == Some((RestoredField(rf, f).value, rest))
  {
    hide SizeCode, TakeResidue;
    var v := f.value;
    match rf.cda
    case ValueSent => ResidueRead(rf, v, rest); VariableIgnoresFixed(rf, |v|, rf.len);
    case Lsb =>
      var n := rf.mo.n;
      ResidueRead(rf, v[n..], rest);
      VariableIgnoresFixed(rf, |v[n..]|, if rf.len > 0 then rf.len - n else 0);
      assert rf.tv.value[..n] + v[n..] == v;
    case _ => assert [] + rest == rest;
  }

  /** A variable-length field's own size decides how much is read. */
  lemma VariableIgnoresFixed(rf: RuleField, a: nat, b: nat)
    requires rf.len > 0 ==> a == b
    ensures forall s :: TakeResidue(rf, a, s) == TakeResidue(rf, b, s)
  {
  }

  /** Whatever rule applies, reading its residues gives back the restored fields and leaves the rest. */
  lemma {:induction false} ResiduesRead(rule: seq<RuleField>, fs: seq<Field>, rest: bits)
    requires RuleWellFormed(rule) && Matches(rule, fs)
    requires forall k :: 0 <= k < |rule| ==> Encodable(rule[k], fs[k].value)
    ensures DecodeFields(rule, Residues(rule, fs) + rest) == Some((Restored(rule, fs), rest))
    decreases |rule|
  {
    if rule == [] {
      assert Residues(rule, fs) + rest == rest;
      assert Restored(rule, fs) == [];
    } else {
      hide Residue, DecodeField, FieldMatches, Encodable;
      var tail := Residues(rule[1..], fs[1..]) + rest;
      assert Residues(rule, fs) + rest == Residue(rule[0], fs[0].value) + tail;
      FieldRead(rule[0], fs[0], tail);
      ResiduesRead(rule[1..], fs[1..], rest);
      MatchedFid(rule[0], fs[0]);
    }
  }

  lemma MatchedFid(rf: RuleField, f: Field)
    requires rf.WellFormed() && FieldMatches(rf, f)
    ensures RestoredField(rf, f).fid == rf.fid
  {
  }

  /** Which values are lost: exactly those ignored when matching and not sent, if they differ from
      the target value. (Computed fields are filled in afterwards.) */
  lemma FieldRestoredIff(rf: RuleField, f: Field)
    requires rf.WellFormed() && FieldMatches(rf, f) && !rf.Computed()
    ensures RestoredField(rf, f) == f <==>
              !(rf.cda.NotSent? && !rf.mo.MoEqual? && f.value != rf.tv.value)
  {
  }

  /** Rules can be read piece by piece. */
  lemma {:induction false} DecodeFieldsAppend(r1: seq<RuleField>, r2: seq<RuleField>, s: bits)
    requires RuleWellFormed(r1) && RuleWellFormed(r2) && RuleWellFormed(r1 + r2)
    requires DecodeFields(r1, s).Some? && DecodeFields(r2, DecodeFields(r1, s).value.1).Some?
    ensures var (f1, t) := DecodeFields(r1, s).value;
            var (f2, u) := DecodeFields(r2, t).value;
            DecodeFields(r1 + r2, s) == Some((f1 + f2, u))
    decreases |r1|
  {
    hide DecodeField;
    var (f2, u) := DecodeFields(r2, DecodeFields(r1, s).value.1).value;
    if r1 == [] {
      assert r1 + r2 == r2 && [] + f2 == f2;
    } else {
      assert (r1 + r2)[1..] == r1[1..] + r2;
      var (v, rest) := DecodeField(r1[0], s).value;
      DecodeFieldsAppend(r1[1..], r2, rest);
      var f1 := DecodeFields(r1[1..], rest).value.0;
      assert [Field(r1[0].fid, v)] + (f1 + f2) == ([Field(r1[0].fid, v)] + f1) + f2;
    }
  }

  lemma {:induction false} ResiduesAppend(r1: seq<RuleField>, r2: seq<RuleField>, f1: seq<Field>, f2: seq<Field>)
    requires |r1| == |f1| && |r2| == |f2|
    ensures Residues(r1 + r2, f1 + f2) == Residues(r1, f1) + Residues(r2, f2)
    decreases |r1|
  {
    hide Residue;
    if r1 == [] {
      assert r1 + r2 == r2 && f1 + f2 == f2;
    } else {
      assert (r1 + r2)[1..] == r1[1..] + r2 && (f1 + f2)[1..] == f1[1..] + f2;
      ResiduesAppend(r1[1..], r2, f1[1..], f2);
    }
  }

  // ---------------------------------------------------------------- rules that send nothing

  predicate SendsNothing(rule: seq<RuleField>) {
    forall k :: 0 <= k < |rule| ==> rule[k].cda.NotSent? || rule[k].Computed()
  }

  /** The field a receiver knows from such an entry alone. */
  function KnownField(rf: RuleField): Field
    requires rf.WellFormed()
  {
    Field(rf.fid, if rf.cda.NotSent? then rf.tv.value else Falses(rf.len))
  }

  function Targets(rule: seq<RuleField>): (fs: seq<Field>)
    requires RuleWellFormed(rule)
    ensures |fs| == |rule|
    ensures forall k :: 0 <= k < |rule| ==> fs[k] == KnownField(rule[k])
  {
    if rule == [] then [] else [KnownField(rule[0])] + Targets(rule[1..])
  }

  lemma {:induction false} NothingSent(rule: seq<RuleField>, fs: seq<Field>)
    requires SendsNothing(rule) && |rule| == |fs|
    ensures Residues(rule, fs) == []
    decreases |rule|
  {
    if rule != [] {
      NothingSent(rule[1..], fs[1..]);
    }
  }

  lemma {:induction false} TargetsRead(rule: seq<RuleField>, s: bits)
    requires RuleWellFormed(rule) && SendsNothing(rule)
    ensures DecodeFields(rule, s) == Some((Targets(rule), s))
    decreases |rule|
  {
    if rule != [] {
      TargetsRead(rule[1..], s);
    }
  }

  // ---------------------------------------------------------------- octets and bits

  function BitsOf(b: bytes): (r: bits)
    ensures |r| == 8 * |b|
  {
    if b == [] then [] else LowBits(b[0], 8) + BitsOf(b[1..])
  }

  /** Whole octets; up to seven padding bits at the end are dropped. */
  function OctetsOf(s: bits): bytes
    decreases |s|
  {
    if |s| < 8 then []
    else
      OctetInRange(s[..8]);
      [Number(s[..8])] + OctetsOf(s[8..])
  }

  lemma OctetInRange(s: bits)
    requires |s| == 8
    ensures Number(s) < 0x100
  {
    NumberBound(s);
    assert Pow2(8) == 0x100;
  }

  lemma {:induction false} OctetsOfBits(b: bytes, padding: bits)
    requires |padding| < 8
    ensures OctetsOf(BitsOf(b) + padding) == b
    decreases |b|
  {
    hide LowBits, Number, Pow2;
    if b == [] {
      assert BitsOf(b) + padding == padding;
    } else {
      var s := BitsOf(b) + padding;
      assert s[..8] == LowBits(b[0], 8) && s[8..] == BitsOf(b[1..]) + padding;
      Pow2Values();
      SmallNumber(b[0], 8);
      OctetsOfBits(b[1..], padding);
      assert b == [b[0]] + b[1..];
    }
  }

  lemma BitsOfInjective(a: bytes, b: bytes)
    requires BitsOf(a) == BitsOf(b)
    ensures a == b
  {
    OctetsOfBits(a, []);
    OctetsOfBits(b, []);
    assert BitsOf(a) + [] == BitsOf(b) + [];
  }
}
