/** The static variables and functions of schc_al.c, with the tunnel queue and the SDK's frames as
    the environment they act on. */
module AdaptationLayer {
  import opened Bytes
  import opened Udp
  import opened Worker

  datatype Event = ConnectivityAvailable | IpPacketAvailable | OngoingTransmission

  /** `oscore_to_coap` on a received payload. */
  datatype Unprotection = Unprotected(out: bytes) | NotOscore | UnprotectionFailed

  class SchcAl {
    const cfg: Config
    const host: Endian
    var processingRequired: bool
    var event: set<Event>
    var tunOpen: bool
    const netBuffer: array<byte>

    // The environment: the kernel's queue, and what the SDK holds and has answered.
    var tun: seq<bytes>
    ghost var pending: seq<bytes>
    ghost var answered: nat
    ghost var arrived: seq<bytes>
    ghost var served: seq<Served>

    ghost function View(): State
      reads this, netBuffer
    {
      State(tunOpen, IpPacketAvailable in event, OngoingTransmission in event, processingRequired,
            netBuffer[..], tun, pending, answered, arrived, served)
    }

    ghost predicate Valid()
      reads this, netBuffer
    {
      Inv(cfg, View())
    }

    /** `schc_al_init`, once the tunnel exists and is watched. */
    constructor (cfg: Config, host: Endian)
      requires cfg.Valid()
      ensures Valid() && fresh(netBuffer) && this.cfg == cfg
      ensures View() == Start(cfg, View().buffer)
    {
      this.cfg, this.host := cfg, host;
      event, tunOpen, processingRequired := {ConnectivityAvailable}, true, true;
      netBuffer := new byte[cfg.capacity](_ => 0);
      tun, pending, answered, arrived, served := [], [], 0, [], [];
    }

    /** The kernel routes a packet into the tunnel. */
    method PacketArrives(p: bytes)
      requires Valid() && WellSized(cfg, ReadIn(cfg, p))
      modifies this
      ensures Valid() && View() == Arrive(old(View()), p)
    {
      StepKeepsInv(cfg, View(), ArriveStep(p));
      tun := tun + [p];
      arrived := arrived + [p];
    }

    /** `schc_al_tun_received_handler`, called when poll finds the tunnel readable. */
    method TunReceivedHandler()
      requires Valid() && tunOpen && tun != []
      modifies this
      ensures Valid() && View() == TunReceived(old(View()))
    {
      StepKeepsInv(cfg, View(), PollStep(false));
      event := event + {IpPacketAvailable};
      processingRequired := true;
    }

    /** `net_transmission_result`, whatever the status. */
    method NetTransmissionResult()
      requires Valid() && pending != []
      modifies this
      ensures Valid() && View() == TransmissionResult(old(View()))
    {
      StepKeepsInv(cfg, View(), ResultStep);
      event := event - {OngoingTransmission};
      pending, answered := pending[1..], answered + 1;
    }

    /** `schc_al_process`. A blocking read never waits, and the state moves as specified. */
    method ProcessEvents(input: Input) returns (status: Status)
      requires Valid() && Ready(cfg, View(), input)
      modifies this, netBuffer
      ensures Valid() && status != Blocked
      ensures (View(), status) == Process(cfg, old(View()), input)
    {
      ProcessKeepsInv(cfg, View(), input);
      if IpPacketAvailable in event {
        event := event - {IpPacketAvailable};
        processingRequired := false;
        status := SendDownPacket(input);
      } else {
        status := SendDownOk;
      }
    }

    /** `schc_al_send_down`. */
    method SendDownPacket(input: Input) returns (status: Status)
      requires Ready(cfg, View(), input) && netBuffer.Length == cfg.capacity
      requires !(OngoingTransmission in event) && tunOpen && input.read.Delivered? ==> tun != []
      modifies this, netBuffer
      ensures (View(), status) == SendDown(cfg, old(View()), input)
    {
      if !tunOpen {
        return SendDownInternalError;
      }
      if OngoingTransmission in event {
        return SendDownBusy;
      }
      if !input.read.Delivered? {
        return if input.read.WouldBlock? then SendDownOk else SendDownInternalError;
      }
      ghost var before := View();
      var p := tun[0];
      tun := tun[1..];
      var verdict := PrepareFrame(ReadIn(cfg, p), input.protection);
      if verdict.Drop? {
        served := served + [Served(p, input.protection, Dropped(verdict.reason))];
        return if verdict.reason.OscoreError? then SendDownOscoreError else SendDownOk;
      }
      event := event + {OngoingTransmission};
      match input.send {
        case Refused =>
          served := served + [Served(p, input.protection, RefusedBySdk(verdict.frame))];
          event := event - {OngoingTransmission};
          status := SendDownInternalError;
        case AcceptedPending =>
          served := served + [Served(p, input.protection, Sent(verdict.frame))];
          pending := pending + [verdict.frame];
          status := SendDownOk;
        case AcceptedDone =>
          served := served + [Served(p, input.protection, Sent(verdict.frame))];
          event, answered := event - {OngoingTransmission}, answered + 1;
          status := SendDownOk;
      }
    }

    /** The middle of `schc_al_send_down`: read into the shared buffer, filter, protect, rewrite. */
    method PrepareFrame(p: bytes, protection: Protection) returns (verdict: Verdict)
      requires cfg.Valid() && netBuffer.Length == cfg.capacity && WellSized(cfg, p) && Fits(cfg, p, protection)
      modifies netBuffer
      ensures (netBuffer[..], verdict) == Prepare(cfg, old(netBuffer[..]), p, protection)
    {
      WriteAt(netBuffer, 0, p);
      ghost var b := netBuffer[..];
      if !IsIpv6Udp(p) {
        return Drop(NotIpv6Udp);
      }
      var length := PayloadLength(netBuffer[..]);
      if !IsCoap(netBuffer[HEADERS..HEADERS + length]) {
        return if cfg.dropNonCoap then Drop(NotCoap) else Forward(netBuffer[..|p|]);
      }
      if !cfg.oscore {
        return Forward(netBuffer[..|p|]);
      }
      match protection {
        case Protected(out) =>
          WriteAt(netBuffer, HEADERS, out);
          verdict := RewriteHeaders(|out|);
        case ProtectionFailed(left) =>
          WriteAt(netBuffer, HEADERS, left);
          if cfg.dropOnError {
            return Drop(OscoreError);
          }
          verdict := RewriteHeaders(length);
      }
    }

    /** `update_ip6_udp_len` and `update_udp_checksum` on the shared buffer. */
    method RewriteHeaders(size: nat) returns (verdict: Verdict)
      requires HEADERS + size <= netBuffer.Length && size <= 65527
      modifies netBuffer
      ensures HoldsDatagram(WithLengths(old(netBuffer[..]), size))
      ensures netBuffer[..] == WithChecksum(WithLengths(old(netBuffer[..]), size))
      ensures verdict == Forward(netBuffer[..HEADERS + size])
    {
      LengthFieldFits(size);
      UpdateIp6UdpLen(host, netBuffer, size);
      UpdateUdpChecksum(host, netBuffer);
      verdict := Forward(netBuffer[..HEADERS + size]);
    }

    /** `schc_al_forward_up`: `written` is what goes to the tunnel, `rc` the return value. */
    method ForwardUp(buffer: array<byte>, dataSize: uint16, answer: Unprotection, writeOk: bool)
      returns (rc: int, written: Option<bytes>)
      requires HEADERS < buffer.Length && dataSize <= buffer.Length && buffer != netBuffer
      requires answer.Unprotected? ==> HEADERS + |answer.out| <= buffer.Length && |answer.out| <= 65527
      modifies buffer
      ensures written == if writeOk then Up(cfg, tunOpen, old(buffer[..]), dataSize, answer).1 else None
      ensures rc == if written.None? && Up(cfg, tunOpen, old(buffer[..]), dataSize, answer).1.Some? then -1
                    else Up(cfg, tunOpen, old(buffer[..]), dataSize, answer).0
    {
      hide IsIpv6Udp, IsCoap, Rewritten, FrameSize;
      var size := dataSize;
      if !tunOpen || size == 0 {
        return -1, None;
      }
      if !IsIpv6Udp(buffer[..size]) {
        return 0, None;
      }
      if IsCoap(buffer[HEADERS..]) {
        if cfg.oscore {
          match answer {
            case Unprotected(out) =>
              ReplacePayload(host, buffer, out);
              size := FrameSize(|out|);
            case NotOscore =>
            case UnprotectionFailed =>
              return -1, None;
          }
        }
      } else if cfg.dropNonCoap {
        return 0, None;
      }
      if !writeOk {
        return -1, None;
      }
      rc, written := 0, Some(buffer[..size]);
    }
  }

  /** New payload and headers, in place. */
  method ReplacePayload(host: Endian, buffer: array<byte>, payload: bytes)
    requires HEADERS + |payload| <= buffer.Length && |payload| <= 65527
    modifies buffer
    ensures buffer[..] == Rewritten(old(buffer[..]), payload)
  {
    WriteAt(buffer, HEADERS, payload);
    LengthFieldFits(|payload|);
    UpdateIp6UdpLen(host, buffer, |payload|);
    UpdateUdpChecksum(host, buffer);
  }

  /** The size of the rewritten frame in the `uint16_t` that holds it. */
  function FrameSize(payload: nat): (r: uint16)
    ensures r <= HEADERS + payload
    ensures HEADERS + payload < 0x1_0000 ==> r == HEADERS + payload
  {
    (HEADERS + payload) % 0x1_0000
  }

  /** `memcpy` over a stretch of a buffer. */
  method WriteAt(buffer: array<byte>, start: nat, data: bytes)
    requires start + |data| <= buffer.Length
    modifies buffer
    ensures buffer[..] == Overwrite(old(buffer[..]), start, data)
  {
    forall k | 0 <= k < |data| {
      buffer[start + k] := data[k];
    }
  }

  // ---------------------------------------------------------------- the other direction

  /** What `schc_al_forward_up` returns and writes to the tunnel, when the write itself succeeds.
      The CoAP test is given the frame size, so it always looks at the first octet after the headers. */
  ghost function Up(cfg: Config, tunOpen: bool, buffer: bytes, size: uint16, answer: Unprotection): (int, Option<bytes>)
    requires HEADERS < |buffer| && size <= |buffer|
    requires answer.Unprotected? ==> HEADERS + |answer.out| <= |buffer| && |answer.out| <= 65527
  {
    if !tunOpen || size == 0 then (-1, None)
    else if !IsIpv6Udp(buffer[..size]) then (0, None)
    else if IsCoap(buffer[HEADERS..]) then
      if !cfg.oscore then (0, Some(buffer[..size]))
      else match answer
        case Unprotected(out) => (0, Some(Rewritten(buffer, out)[..FrameSize(|out|)]))
        case NotOscore => (0, Some(buffer[..size]))
        case UnprotectionFailed => (-1, None)
    else if cfg.dropNonCoap then (0, None)
    else (0, Some(buffer[..size]))
  }

  /** A CoAP frame received at the start of the buffer goes up with the unprotected payload in place. */
  lemma UpReframes(cfg: Config, frame: bytes, payload: bytes, buffer: bytes)
    requires cfg.oscore && Coherent(frame) && IsCoap(Payload(frame)) && frame <= buffer
    requires HEADERS + |payload| <= |buffer| && |frame| < 0x1_0000 && HEADERS + |payload| < 0x1_0000
    ensures Up(cfg, true, buffer, |frame|, Unprotected(payload)) == (0, Some(Reframe(frame, payload)))
  {
    hide WithChecksum, WithLengths, Rewritten, Reframe, FrameSize, Verifies;
    assert buffer[..|frame|] == frame;
    assert buffer[HEADERS] == frame[HEADERS] == Payload(frame)[0];
    RewrittenIsReframed(buffer, frame, payload);
    assert FrameSize(|payload|) == HEADERS + |payload|;
  }

  /** What protection does to a packet's frame, the other side's unprotection undoes: were the frame
      delivered as it was sent, the packet would come out octet for octet. */
  lemma DownThenUpRestores(cfg: Config, p: bytes, protected: bytes, buffer: bytes)
    requires cfg.Valid() && cfg.oscore && |p| <= cfg.capacity && Coherent(p) && IsCoap(Payload(p))
    requires HEADERS + |protected| <= cfg.capacity && IsCoap(protected)
    requires |p| < 0x1_0000 && HEADERS + |protected| < 0x1_0000
    ensures WellSized(cfg, p) && Judge(cfg, p, Protected(protected)) == Forward(Reframe(p, protected))
    ensures Reframe(p, protected) <= buffer && |p| <= |buffer| ==>
              Up(cfg, true, buffer, |Reframe(p, protected)|, Unprotected(Payload(p))) == (0, Some(p))
  {
    hide Reframe, Verifies, Up;
    CoherentWellSized(cfg, p);
    assert CoapPart(p) == Payload(p);
    ReframeIsCoherent(p, protected);
    if Reframe(p, protected) <= buffer && |p| <= |buffer| {
      UpReframes(cfg, Reframe(p, protected), Payload(p), buffer);
      ReframeUndone(p, protected);
    }
  }
}
