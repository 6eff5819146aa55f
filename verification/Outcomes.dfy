/** What becomes of a packet on its way down or up, and what the caller is told: the filters, the
    frames, the log and the return codes of the adaptation layer, in terms of the packet. */
module Outcomes {
  import opened Bytes
  import opened Udp
  import opened Worker
  import opened AdaptationLayer
  import opened RuleId
  import Coap
  import Schc
  import OuterRules

  // ---------------------------------------------------------------- the two filters

  /** The first two bits of a CoAP message are its version, and the version is 1. */
  lemma IsCoapIff(s: bytes)
    ensures IsCoap(s) <==> s != [] && Schc.BitsOf(s)[..2] == [false, true]
  {
    if s != [] {
      TopBits(s[0]);
      assert Schc.BitsOf(s)[..2] == LowBits(s[0], 8)[..2];
    }
  }

  lemma TopBits(b: byte)
    ensures LowBits(b, 8)[..2] == [false, true] <==> b / 0x40 == 1
  {
    hide LowBits;
    Shifted(b, 6);
    Shifted(b / 4, 4);
    Shifted(b / 0x10, 2);
    assert b / 4 / 4 == b / 0x10 && b / 0x10 / 4 == b / 0x40;
    assert LowBits(b, 8)[..2] == LowBits(b, 8)[..6][..4][..2];
    TwoBits(b / 0x40);
  }

  lemma Shifted(v: nat, n: nat)
    ensures LowBits(v, n + 2)[..n] == LowBits(v / 4, n)
  {
    assert LowBits(v, n + 2) == LowBits(v / 4, n) + [v / 2 % 2 == 1] + [v % 2 == 1];
  }

  lemma TwoBits(v: nat)
    requires v < 4
    ensures LowBits(v, 2) == [false, true] <==> v == 1
  {
    assert LowBits(v, 2) == [v / 2 % 2 == 1, v % 2 == 1];
  }

  /** On whatever can be read as a message, the filter asks for version 1. */
  lemma IsCoapIffVersion(s: bytes, m: Coap.Message)
    requires Coap.Parse(s) == Some(m)
    ensures IsCoap(s) <==> m.version == 1
  {
    hide Coap.ParseOptions;
  }

  /** The other filter lets through whatever is long enough for both headers and has the version and the
      next header that every rule asks for. */
  lemma IsIpv6UdpIff(node: OuterRules.Node, p: bytes)
    requires node.Valid()
    ensures IsIpv6Udp(p) <==>
              && |p| >= HEADERS
              && Schc.FieldMatches(OuterRules.UdpRule(node)[0], OuterRules.HeaderFields(p, true)[0])
              && Schc.FieldMatches(OuterRules.UdpRule(node)[4], OuterRules.HeaderFields(p, true)[4])
  {
    hide OuterRules.UdpRule, OuterRules.HeaderFields, Schc.FieldMatches;
    if |p| >= HEADERS {
      OuterRules.FirstEntries(node, p);
    }
  }

  // ---------------------------------------------------------------- on the way down

  /** Which packets go on: IPv6/UDP, and either CoAP that could be protected if it had to be, or
      anything else that is not to be dropped. The reason for a drop tells which test failed. */
  lemma ForwardedIff(cfg: Config, p: bytes, protection: Protection)
    requires cfg.Valid() && WellSized(cfg, p) && Fits(cfg, p, protection)
    ensures var v := Judge(cfg, p, protection);
            && (v == Drop(NotIpv6Udp) <==> !IsIpv6Udp(p))
            && (v == Drop(NotCoap) <==> IsIpv6Udp(p) && !IsCoap(CoapPart(p)) && cfg.dropNonCoap)
            && (v == Drop(OscoreError) <==>
                  IsIpv6Udp(p) && IsCoap(CoapPart(p)) && cfg.oscore && protection.ProtectionFailed? && cfg.dropOnError)
  {
    hide IsIpv6Udp, IsCoap;
  }

  /** What goes on: a coherent frame with the header of the packet and the payload that protection left,
      if the packet is CoAP and protection is on, and otherwise the packet itself. */
  lemma ForwardedFrame(cfg: Config, p: bytes, protection: Protection)
    requires cfg.Valid() && WellSized(cfg, p) && Fits(cfg, p, protection)
    requires Judge(cfg, p, protection).Forward?
    ensures var f := Judge(cfg, p, protection).frame;
            if IsCoap(CoapPart(p)) && cfg.oscore then
              && Coherent(f)
              && Payload(f) == (match protection case Protected(out) => out case ProtectionFailed(left) => left)
              && forall k :: 0 <= k < HEADERS && k !in {4, 5, 44, 45, 46, 47} ==> f[k] == p[k]
            else f == p
  {
    hide IsCoap, Reframe, Coherent;
    if IsCoap(CoapPart(p)) && cfg.oscore {
      ReframeIsCoherent(p, match protection case Protected(out) => out case ProtectionFailed(left) => left);
    }
  }

  /** A packet that carries a CoAP message of version 1 is never dropped for not being CoAP, and with
      protection on it is never forwarded as it came. */
  lemma CoapIsProtected(cfg: Config, p: bytes, protection: Protection, m: Coap.Message)
    requires cfg.Valid() && WellSized(cfg, p) && Fits(cfg, p, protection)
    requires IsIpv6Udp(p) && Coap.Parse(CoapPart(p)) == Some(m) && m.version == 1
    ensures Judge(cfg, p, protection) != Drop(NotCoap)
    ensures cfg.oscore && protection.Protected? ==> Judge(cfg, p, protection) == Forward(Reframe(p, protection.out))
    ensures cfg.oscore && protection.ProtectionFailed? ==>
              Judge(cfg, p, protection)
                == if cfg.dropOnError then Drop(OscoreError) else Forward(Reframe(p, protection.left))
  {
    hide IsCoap, Reframe, Coap.Parse;
    IsCoapIffVersion(CoapPart(p), m);
  }

  /** The log entry and the flags after a packet was taken. */
  lemma ServedAs(cfg: Config, s: State, input: Input)
    requires Inv(cfg, s) && Ready(cfg, s, input) && Serving(s, input)
    ensures var t, v := Process(cfg, s, input).0, Judge(cfg, ReadIn(cfg, s.tun[0]), input.protection);
            var outcome := match v
              case Drop(reason) => Dropped(reason)
              case Forward(frame) => if input.send.Refused? then RefusedBySdk(frame) else Sent(frame);
            && t.served == s.served + [Served(s.tun[0], input.protection, outcome)]
            && t.tun == s.tun[1..]
            && (t.ongoing <==> v.Forward? && input.send.AcceptedPending?)
            && t.pending == (if t.ongoing then [v.frame] else [])
            && t.answered == s.answered + if v.Forward? && input.send.AcceptedDone? then 1 else 0
  {
    hide Judge, Prepare, WellSized, Fits, ReadIn, Packets, SentFrames, Justified;
    PreparedAsJudged(cfg, s.buffer, ReadIn(cfg, s.tun[0]), input.protection);
  }

  /** The status of every call, in terms of the log: what was just entered, if anything was. */
  lemma StatusIff(cfg: Config, s: State, input: Input)
    requires Inv(cfg, s) && Ready(cfg, s, input)
    ensures var (t, status) := Process(cfg, s, input);
            var serving := Serving(s, input);
            && |t.served| == |s.served| + (if serving then 1 else 0)
            && (status == SendDownBusy <==> s.ipAvailable && s.tunOpen && s.ongoing)
            && (status == SendDownOscoreError <==> serving && t.served[|s.served|].outcome == Dropped(OscoreError))
            && (status == SendDownInternalError <==>
                  s.ipAvailable && (!s.tunOpen || (!s.ongoing &&
                    (input.read.ReadFailed? || (serving && t.served[|s.served|].outcome.RefusedBySdk?)))))
            && (status == SendDownOk <==>
                  || !s.ipAvailable
                  || (s.tunOpen && !s.ongoing && input.read.WouldBlock?)
                  || (serving && (t.served[|s.served|].outcome.Sent?
                                  || t.served[|s.served|].outcome in {Dropped(NotIpv6Udp), Dropped(NotCoap)})))
  {
    hide Judge, Prepare, WellSized, Fits, ReadIn, Packets, SentFrames, Justified;
    if Serving(s, input) {
      PreparedAsJudged(cfg, s.buffer, ReadIn(cfg, s.tun[0]), input.protection);
    }
  }

  // ---------------------------------------------------------------- on the way up

  /** What is written to the tunnel: only IPv6/UDP frames, CoAP only if protection is off or did not
      fail, and other payloads only if they are not dropped. */
  lemma WrittenIff(cfg: Config, tunOpen: bool, buffer: bytes, size: uint16, answer: Unprotection)
    requires HEADERS < |buffer| && size <= |buffer|
    requires answer.Unprotected? ==> HEADERS + |answer.out| <= |buffer| && |answer.out| <= 65527
    ensures Up(cfg, tunOpen, buffer, size, answer).1.Some? <==>
              && tunOpen && size > 0 && IsIpv6Udp(buffer[..size])
              && if IsCoap(buffer[HEADERS..]) then cfg.oscore ==> !answer.UnprotectionFailed? else !cfg.dropNonCoap
  {
    hide IsIpv6Udp, IsCoap, Rewritten, FrameSize;
  }

  /** The frame itself, unless a CoAP payload was unprotected; then a coherent frame with the header of
      the received one around what came out, if the frame has no more than 65535 octets. */
  lemma WrittenFrame(cfg: Config, buffer: bytes, size: uint16, answer: Unprotection)
    requires HEADERS < |buffer| && size <= |buffer|
    requires answer.Unprotected? ==> HEADERS + |answer.out| <= |buffer| && HEADERS + |answer.out| < 0x1_0000
    requires Up(cfg, true, buffer, size, answer).1.Some?
    ensures var w := Up(cfg, true, buffer, size, answer).1.value;
            if IsCoap(buffer[HEADERS..]) && cfg.oscore && answer.Unprotected? then
              && Coherent(w) && Payload(w) == answer.out
              && forall k :: 0 <= k < HEADERS && k !in {4, 5, 44, 45, 46, 47} ==> w[k] == buffer[k]
            else w == buffer[..size]
  {
    hide IsCoap, Rewritten, Reframe, Coherent;
    if IsCoap(buffer[HEADERS..]) && cfg.oscore && answer.Unprotected? {
      assert buffer[..|buffer|] == buffer;
      RewrittenIsReframed(buffer, buffer, answer.out);
      ReframeIsCoherent(buffer, answer.out);
    }
  }

  /** The return code: an error for a closed tunnel, an empty frame and a failed unprotection, and only
      for these; frames that the filters discard are no error. */
  lemma UpCodeIff(cfg: Config, tunOpen: bool, buffer: bytes, size: uint16, answer: Unprotection)
    requires HEADERS < |buffer| && size <= |buffer|
    requires answer.Unprotected? ==> HEADERS + |answer.out| <= |buffer| && |answer.out| <= 65527
    ensures var rc := Up(cfg, tunOpen, buffer, size, answer).0;
            && rc in {0, -1}
            && (rc == -1 <==> !tunOpen || size == 0
                              || (IsIpv6Udp(buffer[..size]) && IsCoap(buffer[HEADERS..]) && cfg.oscore
                                  && answer.UnprotectionFailed?))
  {
    hide IsIpv6Udp, IsCoap, Rewritten, FrameSize;
  }
}
