/** One packet all the way: down through the adaptation layer of one side, over the link that the outer
    rules compress, and up through the adaptation layer of the other side. */
module EndToEnd {
  import opened Bytes
  import opened Udp
  import opened Worker
  import opened AdaptationLayer
  import opened RuleId
  import opened OuterRules
  import opened OuterTable

  /** A coherent CoAP packet, protected on the way down and unprotected on the way up, comes out of the
      second tunnel as the outer rules leave any packet: with the table's flow label and hop limit if it
      is between the peers, and otherwise octet for octet. */
  lemma PacketDelivered(cfg: Config, a: Node, b: Node, p: bytes, protected: bytes, width: nat, padding: seq<bool>,
                        buffer: bytes)
    requires cfg.Valid() && cfg.oscore && |p| <= cfg.capacity && Coherent(p) && IsCoap(Payload(p))
    requires HEADERS + |protected| <= cfg.capacity && IsCoap(protected)
    requires |p| < 0x1_0000 && HEADERS + |protected| < 0x1_0000
    requires a.Valid() && b.Valid() && Mirrored(a, b) && |padding| < 8
    requires IdOf(Choose(a, Reframe(p, protected))) < Pow2(width)
    ensures var frame := Reframe(p, protected);
            && WellSized(cfg, p) && Judge(cfg, p, Protected(protected)) == Forward(frame)
            && Decompress(b, Compress(a, frame, width) + padding, width) == Some(OverLink(a, frame))
            && (OverLink(a, frame) <= buffer && |p| <= |buffer| ==>
                  Up(cfg, true, buffer, |frame|, Unprotected(Payload(p))) == (0, Some(OverLink(a, p))))
  {
    hide Reframe, Verifies, Up, Compress, Decompress, Choose, Pow2, OverLink;
    var frame := Reframe(p, protected);
    CoherentWellSized(cfg, p);
    assert CoapPart(p) == Payload(p);
    ReframeIsCoherent(p, protected);
    RoundTripIff(a, b, frame, width, padding);
    OverLinkCoherent(a, frame);
    if OverLink(a, frame) <= buffer && |p| <= |buffer| {
      UpReframes(cfg, OverLink(a, frame), Payload(p), buffer);
      OverLinkReframed(a, p, protected);
    }
  }

  lemma OverLinkCoherent(a: Node, p: bytes)
    requires Coherent(p)
    ensures Coherent(OverLink(a, p)) && Payload(OverLink(a, p)) == Payload(p)
  {
    hide BetweenPeers, Verifies;
    LossyCoherentIff(p);
  }

  /** The link treats a packet and its protected frame alike. */
  lemma BetweenPeersKept(a: Node, p: bytes, payload: bytes)
    requires IsIpv6Udp(p) && |payload| <= 65527
    ensures BetweenPeers(a, Reframe(p, payload)) <==> BetweenPeers(a, p)
  {
    hide Reframe, Coherent;
    var f := Reframe(p, payload);
    ReframeIsCoherent(p, payload);
    assert f[8..24] == p[8..24] && f[24..40] == p[24..40] && f[40..42] == p[40..42] && f[42..44] == p[42..44];
  }

  /** Passing the link and changing the payload commute. */
  lemma OverLinkReframed(a: Node, p: bytes, protected: bytes)
    requires Coherent(p) && |protected| <= 65527
    ensures Reframe(OverLink(a, Reframe(p, protected)), Payload(p)) == OverLink(a, p)
  {
    hide BetweenPeers, Verifies, Reframe;
    var frame := Reframe(p, protected);
    var q := OverLink(a, frame);
    ReframeIsCoherent(p, protected);
    BetweenPeersKept(a, p, protected);
    OverLinkCoherent(a, frame);
    OverLinkCoherent(a, p);
    ReframeIsCoherent(q, Payload(p));
    CoherentDetermined(Reframe(q, Payload(p)), OverLink(a, p));
  }

  /** The packet itself comes out exactly when it is not between the peers or has the table's values. */
  lemma PacketUnchangedIff(a: Node, p: bytes)
    requires IsIpv6Udp(p)
    ensures OverLink(a, p) == p <==> BetweenPeers(a, p) ==> FlowLabel(p) == 0x12345 && p[7] == 64
  {
    hide BetweenPeers, FlowLabel, Lossy;
    LossyIsSameIff(p);
  }
}
