/** The adaptation layer as a state machine: what each handler of schc_al.c does to the flags, the
    packet buffer, the tunnel queue and the SDK, and what holds over whole runs of the main loop. */
module Worker {
  import opened Bytes
  import opened Udp

  /** Compile-time switches (DROP_NON_COAP, OSCORE_PROXY_ENABLED, OSCORE_DROP_ON_ERROR) and buffer size. */
  datatype Config = Config(dropNonCoap: bool, oscore: bool, dropOnError: bool, capacity: nat) {
    predicate Valid() {
      HEADERS < capacity <= HEADERS + 65527
    }
  }

  /** How `read` on the tunnel ends, interrupted calls having been retried. */
  datatype ReadResult = Delivered | WouldBlock | ReadFailed

  /** What `coap_to_oscore` leaves in the payload area. */
  datatype Protection = Protected(out: bytes) | ProtectionFailed(left: bytes)

  /** `net_sendto`: refused, accepted with the result still to come, or accepted with the result
      reported from inside the call. */
  datatype SendResult = Refused | AcceptedPending | AcceptedDone

  datatype Input = Input(read: ReadResult, protection: Protection, send: SendResult)

  datatype Status = SendDownOk | SendDownBusy | SendDownOscoreError | SendDownInternalError | Blocked

  datatype Reason = NotIpv6Udp | NotCoap | OscoreError

  datatype Outcome = Dropped(reason: Reason) | RefusedBySdk(frame: bytes) | Sent(frame: bytes)

  /** One packet taken from the tunnel, and what became of it. */
  datatype Served = Served(packet: bytes, protection: Protection, outcome: Outcome)

  datatype State = State(
    tunOpen: bool,
    ipAvailable: bool,
    ongoing: bool,
    required: bool,
    buffer: bytes,
    tun: seq<bytes>,        // packets the kernel has queued for the tunnel
    pending: seq<bytes>,    // frames the SDK has accepted and not yet answered
    answered: nat,          // results reported so far
    arrived: seq<bytes>,
    served: seq<Served>)

  /** What `read` puts into the buffer: the packet, cut off if it is longer. */
  function ReadIn(cfg: Config, p: bytes): (r: bytes)
    ensures |r| <= cfg.capacity && (|p| <= cfg.capacity ==> r == p)
  {
    if |p| <= cfg.capacity then p else p[..cfg.capacity]
  }

  /** What was read fits the buffer and, if it is UDP, holds the payload that it announces. */
  predicate WellSized(cfg: Config, p: bytes) {
    |p| <= cfg.capacity && (IsIpv6Udp(p) ==> HEADERS + PayloadLength(p) <= |p|)
  }

  /** A coherent packet that fits the buffer is well sized. */
  lemma CoherentWellSized(cfg: Config, p: bytes)
    requires Coherent(p) && |p| <= cfg.capacity
    ensures WellSized(cfg, p) && ReadIn(cfg, p) == p
  {
    hide Verifies;
  }

  // ---------------------------------------------------------------- the fate of one packet

  datatype Verdict = Drop(reason: Reason) | Forward(frame: bytes)

  function CoapPart(p: bytes): bytes
    requires |p| >= HEADERS && HEADERS + PayloadLength(p) <= |p|
  {
    p[HEADERS..HEADERS + PayloadLength(p)]
  }

  /** What the configuration asks for: which packets go on, and in what form. */
  ghost function Judge(cfg: Config, p: bytes, protection: Protection): Verdict
    requires cfg.Valid() && WellSized(cfg, p) && Fits(cfg, p, protection)
  {
    if !IsIpv6Udp(p) then Drop(NotIpv6Udp)
    else if !IsCoap(CoapPart(p)) then if cfg.dropNonCoap then Drop(NotCoap) else Forward(p)
    else if !cfg.oscore then Forward(p)
    else match protection
      case Protected(out) => Forward(Reframe(p, out))
      case ProtectionFailed(left) => if cfg.dropOnError then Drop(OscoreError) else Forward(Reframe(p, left))
  }

  /** `coap_to_oscore` respects the room it is given, and a failure leaves the length alone. */
  predicate Fits(cfg: Config, p: bytes, protection: Protection) {
    match protection
    case Protected(out) => HEADERS + |out| <= cfg.capacity
    case ProtectionFailed(left) => IsIpv6Udp(p) ==> |left| == PayloadLength(p)
  }

  ghost predicate Justified(cfg: Config, e: Served)
    requires cfg.Valid()
  {
    && WellSized(cfg, ReadIn(cfg, e.packet)) && Fits(cfg, ReadIn(cfg, e.packet), e.protection)
    && match Judge(cfg, ReadIn(cfg, e.packet), e.protection)
       case Drop(reason) => e.outcome == Dropped(reason)
       case Forward(frame) => e.outcome == RefusedBySdk(frame) || e.outcome == Sent(frame)
  }

  // ---------------------------------------------------------------- the handlers

  function Arrive(s: State, p: bytes): State {
    s.(tun := s.tun + [p], arrived := s.arrived + [p])
  }

  /** One round of poll: level-triggered, so the tunnel handler runs whenever a packet waits. */
  function Poll(s: State, interrupted: bool): State {
    if !interrupted && s.tunOpen && s.tun != [] then TunReceived(s) else s
  }

  /** `schc_al_tun_received_handler` */
  function TunReceived(s: State): State {
    s.(ipAvailable := true, required := true)
  }

  /** `net_transmission_result` for the oldest accepted frame. */
  function TransmissionResult(s: State): State
    requires s.pending != []
  {
    s.(ongoing := false, pending := s.pending[1..], answered := s.answered + 1)
  }

  /** Octets written over the start of a stretch of the buffer. */
  function Overwrite(buffer: bytes, start: nat, data: bytes): (r: bytes)
    requires start + |data| <= |buffer|
    ensures |r| == |buffer|
  {
    buffer[..start] + data + buffer[start + |data|..]
  }

  /** New payload, then both length fields, then the checksum. */
  ghost function Rewritten(buffer: bytes, payload: bytes): (r: bytes)
    requires HEADERS + |payload| <= |buffer| && |payload| <= 65527
    ensures |r| == |buffer|
  {
    var b := Overwrite(buffer, HEADERS, payload);
    LengthFieldFits(|payload|);
    WithChecksum(WithLengths(b, |payload|))
  }

  /** From `read` to the frame: the buffer afterwards, and the verdict. */
  ghost function Prepare(cfg: Config, buffer: bytes, p: bytes, protection: Protection): (bytes, Verdict)
    requires cfg.Valid() && |buffer| == cfg.capacity && WellSized(cfg, p) && Fits(cfg, p, protection)
  {
    var b := Overwrite(buffer, 0, p);
    if !IsIpv6Udp(p) then (b, Drop(NotIpv6Udp))
    else if !IsCoap(CoapPart(b)) then (b, if cfg.dropNonCoap then Drop(NotCoap) else Forward(b[..|p|]))
    else if !cfg.oscore then (b, Forward(b[..|p|]))
    else match protection
      case ProtectionFailed(left) =>
        if cfg.dropOnError then (Overwrite(b, HEADERS, left), Drop(OscoreError))
        else (Rewritten(b, left), Forward(Rewritten(b, left)[..HEADERS + |left|]))
      case Protected(out) => (Rewritten(b, out), Forward(Rewritten(b, out)[..HEADERS + |out|]))
  }

  /** `net_sendto` and the flag around it. */
  function Send(s: State, p: bytes, protection: Protection, frame: bytes, send: SendResult): (State, Status) {
    match send
    case Refused =>
      (s.(ongoing := false, served := s.served + [Served(p, protection, RefusedBySdk(frame))]), SendDownInternalError)
    case AcceptedPending =>
      (s.(ongoing := true, pending := s.pending + [frame], served := s.served + [Served(p, protection, Sent(frame))]),
       SendDownOk)
    case AcceptedDone =>
      (s.(ongoing := false, answered := s.answered + 1, served := s.served + [Served(p, protection, Sent(frame))]),
       SendDownOk)
  }

  /** `schc_al_send_down` */
  ghost function SendDown(cfg: Config, s: State, input: Input): (State, Status)
    requires Ready(cfg, s, input)
  {
    if !s.tunOpen then (s, SendDownInternalError)
    else if s.ongoing then (s, SendDownBusy)
    else match input.read
      case WouldBlock => (s, SendDownOk)
      case ReadFailed => (s, SendDownInternalError)
      case Delivered =>
        if s.tun == [] then (s, Blocked)
        else
          var p := s.tun[0];
          var (b, verdict) := Prepare(cfg, s.buffer, ReadIn(cfg, p), input.protection);
          var t := s.(tun := s.tun[1..], buffer := b);
          match verdict
          case Drop(reason) =>
            (t.(served := t.served + [Served(p, input.protection, Dropped(reason))]),
             if reason.OscoreError? then SendDownOscoreError else SendDownOk)
          case Forward(frame) => Send(t, p, input.protection, frame, input.send)
  }

  /** `schc_al_process` */
  ghost function Process(cfg: Config, s: State, input: Input): (State, Status)
    requires Ready(cfg, s, input)
  {
    if s.ipAvailable then SendDown(cfg, s.(ipAvailable := false, required := false), input) else (s, SendDownOk)
  }

  /** What the environment owes the handlers: a buffer of the configured size, well-sized packets,
      and an OSCORE answer that fits the packet at hand. */
  predicate Ready(cfg: Config, s: State, input: Input) {
    && cfg.Valid() && |s.buffer| == cfg.capacity
    && (s.tun != [] ==> WellSized(cfg, ReadIn(cfg, s.tun[0])) && Fits(cfg, ReadIn(cfg, s.tun[0]), input.protection))
  }

  // ---------------------------------------------------------------- the frame

  /** The updates made in the shared buffer produce the frame that the verdict describes,
      at the start of the buffer. */
  lemma PreparedAsJudged(cfg: Config, buffer: bytes, p: bytes, protection: Protection)
    requires cfg.Valid() && |buffer| == cfg.capacity && WellSized(cfg, p) && Fits(cfg, p, protection)
    ensures var (b, verdict) := Prepare(cfg, buffer, p, protection);
            && |b| == |buffer| && verdict == Judge(cfg, p, protection)
            && (verdict.Forward? ==> verdict.frame <= b)
  {
    hide Rewritten, Reframe, IsCoap;
    var b := Overwrite(buffer, 0, p);
    assert b[..|p|] == p;
    if IsIpv6Udp(p) {
      assert b[44] == p[44] && b[45] == p[45];
      assert CoapPart(b) == CoapPart(p) by {
        assert b[..|p|][HEADERS..HEADERS + PayloadLength(p)] == b[HEADERS..HEADERS + PayloadLength(p)];
      }
      match protection
      case Protected(out) => RewrittenIsReframed(b, p, out);
      case ProtectionFailed(left) => RewrittenIsReframed(b, p, left);
    }
  }

  lemma RewrittenIsReframed(b: bytes, p: bytes, payload: bytes)
    requires HEADERS <= |p| <= |b| && b[..|p|] == p
    requires HEADERS + |payload| <= |b| && |payload| <= 65527
    ensures Rewritten(b, payload)[..HEADERS + |payload|] == Reframe(p, payload)
  {
    var c := Overwrite(b, HEADERS, payload);
    UpdatesInLargerBuffer(c, |payload|);
    assert c[HEADERS..HEADERS + |payload|] == payload;
    assert c[..HEADERS] == b[..|p|][..HEADERS] == p[..HEADERS];
    assert Reframe(c, payload) == Reframe(p, payload);
  }

  // ---------------------------------------------------------------- invariants of every run

  function Packets(log: seq<Served>): seq<bytes> {
    seq(|log|, k requires 0 <= k < |log| => log[k].packet)
  }

  /** The frames accepted by the SDK, oldest first. */
  function SentFrames(log: seq<Served>): seq<bytes> {
    if log == [] then []
    else
      var e := log[|log| - 1];
      SentFrames(log[..|log| - 1]) + if e.outcome.Sent? then [e.outcome.frame] else []
  }

  ghost predicate Inv(cfg: Config, s: State) {
    && cfg.Valid() && |s.buffer| == cfg.capacity
    && (forall k :: 0 <= k < |s.tun| ==> WellSized(cfg, ReadIn(cfg, s.tun[k])))
    // a blocking read never waits
    && (s.ipAvailable ==> s.required && s.tun != [])
    // the flag stands for the one frame that the SDK still owns, and the buffer still holds it
    && |s.pending| == (if s.ongoing then 1 else 0)
    && (s.ongoing ==> s.pending[0] <= s.buffer)
    // conservation
    && Packets(s.served) + s.tun == s.arrived
    && |SentFrames(s.served)| == s.answered + |s.pending|
    && SentFrames(s.served)[s.answered..] == s.pending
    && (forall k :: 0 <= k < |s.served| ==> Justified(cfg, s.served[k]))
  }

  /** Right after `schc_al_init` has watched the tunnel: only processing is requested. */
  function Start(cfg: Config, buffer: bytes): State {
    State(true, false, false, true, buffer, [], [], 0, [], [])
  }

  datatype Step = ArriveStep(p: bytes) | PollStep(interrupted: bool) | ProcessStep(input: Input) | ResultStep

  /** Packets are well sized, OSCORE answers fit, and results come only for accepted frames. */
  predicate Enabled(cfg: Config, s: State, step: Step) {
    match step
    case ArriveStep(p) => WellSized(cfg, ReadIn(cfg, p))
    case PollStep(_) => true
    case ProcessStep(input) => Ready(cfg, s, input)
    case ResultStep => s.pending != []
  }

  /** One step; the main loop calls `schc_al_process` only when processing is required. */
  ghost function Next(cfg: Config, s: State, step: Step): State
    requires Enabled(cfg, s, step)
  {
    match step
    case ArriveStep(p) => Arrive(s, p)
    case PollStep(interrupted) => Poll(s, interrupted)
    case ProcessStep(input) => if s.required then Process(cfg, s, input).0 else s
    case ResultStep => TransmissionResult(s)
  }

  /** What taking one packet from the tunnel does to the state, in all its cases. */
  function Record(s: State, b: bytes, e: Served, waits: bool): State
    requires s.tun != []
    requires waits ==> e.outcome.Sent?
  {
    s.(ipAvailable := false, required := false, tun := s.tun[1..], buffer := b, ongoing := waits,
       pending := if waits then [e.outcome.frame] else [],
       answered := if e.outcome.Sent? && !waits then s.answered + 1 else s.answered,
       served := s.served + [e])
  }

  lemma RecordKeepsInv(cfg: Config, s: State, b: bytes, e: Served, waits: bool)
    requires Inv(cfg, s) && s.tun != [] && !s.ongoing
    requires e.packet == s.tun[0] && Justified(cfg, e) && |b| == cfg.capacity
    requires waits ==> e.outcome.Sent? && e.outcome.frame <= b
    ensures Inv(cfg, Record(s, b, e, waits))
  {
  }

  lemma ProcessKeepsInv(cfg: Config, s: State, input: Input)
    requires Inv(cfg, s) && Ready(cfg, s, input)
    ensures Inv(cfg, Process(cfg, s, input).0)
    ensures Process(cfg, s, input).1 != Blocked
  {
    hide Justified, Packets, SentFrames, WellSized, Fits, Prepare;
    if Serving(s, input) {
      ServingKeepsInv(cfg, s, input);
    }
  }

  /** Processing will take a packet. */
  predicate Serving(s: State, input: Input) {
    s.ipAvailable && s.tunOpen && !s.ongoing && input.read.Delivered? && s.tun != []
  }

  /** The buffer, the log entry and whether a result is awaited, after processing took a packet. */
  ghost function FateOf(cfg: Config, s: State, input: Input): (r: (bytes, Served, bool))
    requires Ready(cfg, s, input) && s.tun != []
    ensures r.2 ==> r.1.outcome.Sent?
  {
    var p := s.tun[0];
    var (b, verdict) := Prepare(cfg, s.buffer, ReadIn(cfg, p), input.protection);
    var outcome := match verdict
      case Drop(reason) => Dropped(reason)
      case Forward(frame) => if input.send.Refused? then RefusedBySdk(frame) else Sent(frame);
    (b, Served(p, input.protection, outcome), verdict.Forward? && input.send.AcceptedPending?)
  }

  lemma ServingRecords(cfg: Config, s: State, input: Input)
    requires Ready(cfg, s, input) && Serving(s, input)
    requires s.pending == []
    ensures var (b, e, waits) := FateOf(cfg, s, input);
            Process(cfg, s, input).0 == Record(s, b, e, waits)
    ensures Process(cfg, s, input).1 != Blocked
  {
  }

  lemma FateJustified(cfg: Config, s: State, input: Input)
    requires Ready(cfg, s, input) && s.tun != []
    ensures var (b, e, waits) := FateOf(cfg, s, input);
            && e.packet == s.tun[0] && Justified(cfg, e) && |b| == cfg.capacity
            && (waits ==> e.outcome.frame <= b)
  {
    hide Judge, Prepare, WellSized, Fits, ReadIn;
    var p, q := s.tun[0], ReadIn(cfg, s.tun[0]);
    PreparedAsJudged(cfg, s.buffer, q, input.protection);
    var (b, e, waits) := FateOf(cfg, s, input);
    assert Prepare(cfg, s.buffer, q, input.protection) == (b, Judge(cfg, q, input.protection));
    assert e.packet == p && e.protection == input.protection;
    match Judge(cfg, q, input.protection)
    case Drop(reason) =>
      assert e.outcome == Dropped(reason) && !waits;
    case Forward(frame) =>
      assert e.outcome == RefusedBySdk(frame) || e.outcome == Sent(frame);
  }

  lemma ServingKeepsInv(cfg: Config, s: State, input: Input)
    requires Inv(cfg, s) && Ready(cfg, s, input) && Serving(s, input)
    ensures Inv(cfg, Process(cfg, s, input).0)
    ensures Process(cfg, s, input).1 != Blocked
  {
    hide FateOf, Process, Record, Justified, WellSized, Fits, Packets, SentFrames;
    var (b, e, waits) := FateOf(cfg, s, input);
    ServingRecords(cfg, s, input);
    FateJustified(cfg, s, input);
    RecordKeepsInv(cfg, s, b, e, waits);
  }

  lemma StepKeepsInv(cfg: Config, s: State, step: Step)
    requires Inv(cfg, s) && Enabled(cfg, s, step)
    ensures Inv(cfg, Next(cfg, s, step))
  {
    match step
    case ArriveStep(p) =>
      assert Packets(s.served) + (s.tun + [p]) == (Packets(s.served) + s.tun) + [p];
    case PollStep(interrupted) =>
    case ProcessStep(input) => ProcessKeepsInv(cfg, s, input);
    case ResultStep =>
      assert SentFrames(s.served)[s.answered + 1..] == SentFrames(s.served)[s.answered..][1..];
  }

  ghost predicate ValidRun(cfg: Config, s: State, steps: seq<Step>)
    decreases |steps|
  {
    steps == [] || (Enabled(cfg, s, steps[0]) && ValidRun(cfg, Next(cfg, s, steps[0]), steps[1..]))
  }

  ghost function Run(cfg: Config, s: State, steps: seq<Step>): State
    requires ValidRun(cfg, s, steps)
    decreases |steps|
  {
    if steps == [] then s else Run(cfg, Next(cfg, s, steps[0]), steps[1..])
  }

  lemma StartInv(cfg: Config, buffer: bytes)
    requires cfg.Valid() && |buffer| == cfg.capacity
    ensures Inv(cfg, Start(cfg, buffer))
    ensures var s := Start(cfg, buffer);
            && s.tunOpen && s.required && !s.ipAvailable && !s.ongoing
            && s.arrived == s.tun == [] && s.served == [] && s.pending == [] && s.answered == 0
  {
  }

  /** Whatever the order of arrivals, polls, processing and results. */
  lemma {:induction false} RunKeepsInv(cfg: Config, s: State, steps: seq<Step>)
    requires Inv(cfg, s) && ValidRun(cfg, s, steps)
    ensures Inv(cfg, Run(cfg, s, steps))
    decreases |steps|
  {
    if steps != [] {
      StepKeepsInv(cfg, s, steps[0]);
      RunKeepsInv(cfg, Next(cfg, s, steps[0]), steps[1..]);
    }
  }

  /** So it holds in every state that the worker reaches after `schc_al_init`: a signalled packet waits and
      has processing requested, and the flag says whether one frame is unanswered, still in the buffer. */
  lemma ReachableInv(cfg: Config, buffer: bytes, steps: seq<Step>)
    requires cfg.Valid() && |buffer| == cfg.capacity && ValidRun(cfg, Start(cfg, buffer), steps)
    ensures var t := Run(cfg, Start(cfg, buffer), steps);
            && Inv(cfg, t)
            && (t.ipAvailable ==> t.required && t.tun != [])
            && |t.pending| == (if t.ongoing then 1 else 0)
            && (t.ongoing ==> t.pending[0] <= t.buffer)
  {
    StartInv(cfg, buffer);
    RunKeepsInv(cfg, Start(cfg, buffer), steps);
  }

  // ---------------------------------------------------------------- the buffer while it is lent

  /** While a result is outstanding no step writes the buffer, and none takes a packet. */
  lemma LentBufferUntouched(cfg: Config, s: State, step: Step)
    requires Inv(cfg, s) && Enabled(cfg, s, step) && s.ongoing
    ensures Next(cfg, s, step).buffer == s.buffer && Next(cfg, s, step).served == s.served
  {
  }

  /** BUSY is reported exactly for a packet signalled during a transmission, and it consumes nothing. */
  lemma BusyIff(cfg: Config, s: State, input: Input)
    requires Inv(cfg, s) && Ready(cfg, s, input)
    ensures Process(cfg, s, input).1 == SendDownBusy <==> s.ipAvailable && s.tunOpen && s.ongoing
    ensures Process(cfg, s, input).1 == SendDownBusy ==>
              Process(cfg, s, input).0 == s.(ipAvailable := false, required := false)
  {
  }

  // ---------------------------------------------------------------- a FIFO server

  datatype Server = Server(queue: seq<bytes>, log: seq<Served>)

  datatype Act = Stutter | Enqueue(p: bytes) | Serve(e: Served)

  /** The server takes the oldest packet and deals with it as the configuration asks. */
  ghost predicate Allows(cfg: Config, a: Server, act: Act)
    requires cfg.Valid()
  {
    act.Serve? ==> a.queue != [] && act.e.packet == a.queue[0] && Justified(cfg, act.e)
  }

  function Move(a: Server, act: Act): Server {
    match act
    case Stutter => a
    case Enqueue(p) => a.(queue := a.queue + [p])
    case Serve(e) => Server(if a.queue == [] then [] else a.queue[1..], a.log + [e])
  }

  function AsServer(s: State): Server {
    Server(s.tun, s.served)
  }

  /** The server step that a worker step performs. */
  ghost function ActOf(cfg: Config, s: State, step: Step): Act
    requires Enabled(cfg, s, step)
  {
    match step
    case ArriveStep(p) => Enqueue(p)
    case ProcessStep(_) =>
      var t := Next(cfg, s, step);
      if |t.served| > |s.served| then Serve(t.served[|t.served| - 1]) else Stutter
    case _ => Stutter
  }

  lemma StepRefinesServer(cfg: Config, s: State, step: Step)
    requires Inv(cfg, s) && Enabled(cfg, s, step)
    ensures Allows(cfg, AsServer(s), ActOf(cfg, s, step))
    ensures AsServer(Next(cfg, s, step)) == Move(AsServer(s), ActOf(cfg, s, step))
  {
    hide Prepare, WellSized, Fits, Justified, Packets, SentFrames, FateOf;
    if step.ProcessStep? && s.required && Serving(s, step.input) {
      ServingRecords(cfg, s, step.input);
      FateJustified(cfg, s, step.input);
    }
  }

  ghost function Acts(cfg: Config, s: State, steps: seq<Step>): seq<Act>
    requires ValidRun(cfg, s, steps)
    decreases |steps|
  {
    if steps == [] then []
    else [ActOf(cfg, s, steps[0])] + Acts(cfg, Next(cfg, s, steps[0]), steps[1..])
  }

  ghost predicate ServerRun(cfg: Config, a: Server, acts: seq<Act>, z: Server)
    requires cfg.Valid()
    decreases |acts|
  {
    if acts == [] then a == z
    else Allows(cfg, a, acts[0]) && ServerRun(cfg, Move(a, acts[0]), acts[1..], z)
  }

  /** Every run of the worker is a run of the server. */
  lemma {:induction false} RunRefinesServer(cfg: Config, s: State, steps: seq<Step>)
    requires Inv(cfg, s) && ValidRun(cfg, s, steps)
    ensures ServerRun(cfg, AsServer(s), Acts(cfg, s, steps), AsServer(Run(cfg, s, steps)))
    decreases |steps|
  {
    if steps != [] {
      hide Inv, Enabled, ActOf, Next, Allows, Move, AsServer;
      StepRefinesServer(cfg, s, steps[0]);
      StepKeepsInv(cfg, s, steps[0]);
      RunRefinesServer(cfg, Next(cfg, s, steps[0]), steps[1..]);
      assert Acts(cfg, s, steps)[1..] == Acts(cfg, Next(cfg, s, steps[0]), steps[1..]);
    }
  }

  function Enqueued(acts: seq<Act>): seq<bytes> {
    if acts == [] then [] else (if acts[0].Enqueue? then [acts[0].p] else []) + Enqueued(acts[1..])
  }

  /** What a run of the server is: packets are taken in the order in which they were put into the queue,
      and each new entry of the log is as the configuration asks. */
  lemma {:induction false} ServerIsFifo(cfg: Config, a: Server, acts: seq<Act>, z: Server)
    requires cfg.Valid() && ServerRun(cfg, a, acts, z)
    ensures a.log <= z.log
    ensures Packets(z.log) + z.queue == Packets(a.log) + a.queue + Enqueued(acts)
    ensures forall k :: |a.log| <= k < |z.log| ==> Justified(cfg, z.log[k])
    decreases |acts|
  {
    if acts != [] {
      hide Justified;
      var b := Move(a, acts[0]);
      ServerIsFifo(cfg, b, acts[1..], z);
      MoveKeepsOrder(cfg, a, acts[0]);
      JoinQueued(Packets(a.log) + a.queue, if acts[0].Enqueue? then [acts[0].p] else [], Enqueued(acts[1..]));
    }
  }

  lemma MoveKeepsOrder(cfg: Config, a: Server, act: Act)
    requires cfg.Valid() && Allows(cfg, a, act)
    ensures var b := Move(a, act);
            && Packets(b.log) + b.queue == Packets(a.log) + a.queue + (if act.Enqueue? then [act.p] else [])
            && b.log == a.log + if act.Serve? then [act.e] else []
  {
    hide Justified;
    if act.Serve? {
      assert Packets(a.log + [act.e]) == Packets(a.log) + [a.queue[0]];
    }
  }

  lemma JoinQueued(a: seq<bytes>, b: seq<bytes>, c: seq<bytes>)
    ensures (a + b) + c == a + (b + c)
  {
  }

  function Arrivals(steps: seq<Step>): seq<bytes> {
    if steps == [] then [] else (if steps[0].ArriveStep? then [steps[0].p] else []) + Arrivals(steps[1..])
  }

  lemma {:induction false} ArrivalsEnqueued(cfg: Config, s: State, steps: seq<Step>)
    requires ValidRun(cfg, s, steps)
    ensures Enqueued(Acts(cfg, s, steps)) == Arrivals(steps)
    decreases |steps|
  {
    if steps != [] {
      hide Next, Enabled;
      ArrivalsEnqueued(cfg, Next(cfg, s, steps[0]), steps[1..]);
      var a := ActOf(cfg, s, steps[0]);
      assert Acts(cfg, s, steps) == [a] + Acts(cfg, Next(cfg, s, steps[0]), steps[1..]);
      assert a.Enqueue? <==> steps[0].ArriveStep?;
    }
  }

  /** From initialisation on: the packets taken and the packets queued are those that arrived, in that
      order, and each was dropped, refused or sent as the configuration asks. */
  lemma ReachableIsFifo(cfg: Config, buffer: bytes, steps: seq<Step>)
    requires cfg.Valid() && |buffer| == cfg.capacity && ValidRun(cfg, Start(cfg, buffer), steps)
    ensures var t := Run(cfg, Start(cfg, buffer), steps);
            && Packets(t.served) + t.tun == Arrivals(steps)
            && forall k :: 0 <= k < |t.served| ==> Justified(cfg, t.served[k])
  {
    hide Justified, Run, Acts, ServerRun, Inv, ValidRun, Arrivals;
    var s := Start(cfg, buffer);
    StartInv(cfg, buffer);
    RunRefinesServer(cfg, s, steps);
    ServerIsFifo(cfg, AsServer(s), Acts(cfg, s, steps), AsServer(Run(cfg, s, steps)));
    ArrivalsEnqueued(cfg, s, steps);
    assert Packets([]) + [] + Arrivals(steps) == Arrivals(steps);
  }

  // ---------------------------------------------------------------- order and conservation

  /** Frames leave in the order in which their packets arrived, each for a different packet. */
  lemma SentInArrivalOrder(cfg: Config, s: State) returns (at: seq<nat>)
    requires Inv(cfg, s)
    ensures |at| == |SentFrames(s.served)|
    ensures forall k :: 0 <= k < |at| ==> at[k] < |s.served| <= |s.arrived|
    ensures forall k :: 0 <= k < |at| ==> s.served[at[k]].outcome == Sent(SentFrames(s.served)[k])
                                          && s.served[at[k]].packet == s.arrived[at[k]]
    ensures forall j, k :: 0 <= j < k < |at| ==> at[j] < at[k]
  {
    at := SentPositions(s.served);
    forall k | 0 <= k < |s.served|
      ensures s.served[k].packet == s.arrived[k]
    {
      assert (Packets(s.served) + s.tun)[k] == Packets(s.served)[k];
    }
  }

  lemma {:induction false} SentPositions(log: seq<Served>) returns (at: seq<nat>)
    ensures |at| == |SentFrames(log)|
    ensures forall k :: 0 <= k < |at| ==> at[k] < |log| && log[at[k]].outcome == Sent(SentFrames(log)[k])
    ensures forall j, k :: 0 <= j < k < |at| ==> at[j] < at[k]
    decreases |log|
  {
    if log == [] {
      at := [];
    } else {
      at := SentPositions(log[..|log| - 1]);
      if log[|log| - 1].outcome.Sent? {
        at := at + [|log| - 1];
      }
    }
  }

  function DroppedCount(log: seq<Served>): nat {
    if log == [] then 0 else DroppedCount(log[..|log| - 1]) + if log[|log| - 1].outcome.Dropped? then 1 else 0
  }

  function RefusedCount(log: seq<Served>): nat {
    if log == [] then 0 else RefusedCount(log[..|log| - 1]) + if log[|log| - 1].outcome.RefusedBySdk? then 1 else 0
  }

  lemma {:induction false} ClassifiedOnce(log: seq<Served>)
    ensures |log| == |SentFrames(log)| + DroppedCount(log) + RefusedCount(log)
    decreases |log|
  {
    if log != [] {
      ClassifiedOnce(log[..|log| - 1]);
    }
  }

  /** Every packet that ever arrived is queued, dropped, refused, answered or in flight. */
  lemma Conservation(cfg: Config, s: State)
    requires Inv(cfg, s)
    ensures |s.arrived| == |s.tun| + DroppedCount(s.served) + RefusedCount(s.served) + s.answered + |s.pending|
    ensures |s.pending| <= 1
  {
    ClassifiedOnce(s.served);
    assert |Packets(s.served) + s.tun| == |s.arrived|;
  }

  // ---------------------------------------------------------------- the queue drains

  /** One pass of the main loop without arrivals: `mgt_process` may report a result, then the adaptation
      layer runs if it asked to, then poll returns, perhaps interrupted by a signal. */
  datatype Iteration = Iteration(answered: bool, input: Input, interrupted: bool)

  function Answer(s: State, answered: bool): State {
    if answered && s.pending != [] then TransmissionResult(s) else s
  }

  ghost predicate Iterates(cfg: Config, s: State, it: Iteration) {
    Ready(cfg, Answer(s, it.answered), it.input)
  }

  ghost function Iterate(cfg: Config, s: State, it: Iteration): State
    requires Iterates(cfg, s, it)
  {
    Poll(Next(cfg, Answer(s, it.answered), ProcessStep(it.input)), it.interrupted)
  }

  /** The transmitter is free when the adaptation layer runs, and its `read` delivers. */
  predicate Free(s: State, it: Iteration) {
    !Answer(s, it.answered).ongoing && it.input.read.Delivered?
  }

  /** A pass takes a packet exactly if one is signalled and the pass is free; the next packet is then
      signalled exactly if poll is not interrupted. */
  lemma IterationProgress(cfg: Config, s: State, it: Iteration)
    requires Inv(cfg, s) && s.tunOpen && Iterates(cfg, s, it)
    ensures var t := Iterate(cfg, s, it);
            && Inv(cfg, t) && t.tunOpen
            && t.tun == (if s.ipAvailable && Free(s, it) then s.tun[1..] else s.tun)
            && (t.ipAvailable <==> !it.interrupted && t.tun != [])
  {
    if it.answered && s.pending != [] {
      StepKeepsInv(cfg, s, ResultStep);
    }
    var a := Answer(s, it.answered);
    StepKeepsInv(cfg, a, ProcessStep(it.input));
    StepKeepsInv(cfg, Next(cfg, a, ProcessStep(it.input)), PollStep(it.interrupted));
    hide Judge, Prepare, WellSized, Fits, Justified, Packets, SentFrames;
    ProcessTakesOne(cfg, a, it.input);
  }

  lemma ProcessTakesOne(cfg: Config, s: State, input: Input)
    requires Inv(cfg, s) && s.tunOpen && Ready(cfg, s, input)
    ensures var t := Next(cfg, s, ProcessStep(input));
            && t.tunOpen && !t.ipAvailable
            && t.tun == if s.ipAvailable && !s.ongoing && input.read.Delivered? then s.tun[1..] else s.tun
  {
    hide Judge, Prepare, WellSized, Fits, Justified, Packets, SentFrames;
  }

  ghost predicate ValidSchedule(cfg: Config, s: State, its: seq<Iteration>)
    decreases |its|
  {
    its == [] || (Iterates(cfg, s, its[0]) && ValidSchedule(cfg, Iterate(cfg, s, its[0]), its[1..]))
  }

  ghost function IterateAll(cfg: Config, s: State, its: seq<Iteration>): State
    requires ValidSchedule(cfg, s, its)
    decreases |its|
  {
    if its == [] then s else IterateAll(cfg, Iterate(cfg, s, its[0]), its[1..])
  }

  /** The free passes that start right after a poll which was not interrupted; `polled` tells whether
      there was such a poll before the first pass. */
  ghost function Turns(cfg: Config, s: State, its: seq<Iteration>, polled: bool): nat
    requires ValidSchedule(cfg, s, its)
    decreases |its|
  {
    if its == [] then 0
    else (if polled && Free(s, its[0]) then 1 else 0)
         + Turns(cfg, Iterate(cfg, s, its[0]), its[1..], !its[0].interrupted)
  }

  /** Whenever results come, reads fail and signals interrupt: each turn takes one packet from the
      queue, nothing else does, and so as many turns as there are packets empty it. */
  lemma {:induction false} DrainsByTurns(cfg: Config, s: State, its: seq<Iteration>, polled: bool)
    requires Inv(cfg, s) && s.tunOpen && ValidSchedule(cfg, s, its)
    requires s.ipAvailable <==> polled && s.tun != []
    ensures var left := |s.tun| - Turns(cfg, s, its, polled);
            |IterateAll(cfg, s, its).tun| == if left > 0 then left else 0
    decreases |its|
  {
    if its != [] {
      hide Inv, Iterates, Iterate, Free;
      IterationProgress(cfg, s, its[0]);
      var t := Iterate(cfg, s, its[0]);
      DrainsByTurns(cfg, t, its[1..], !its[0].interrupted);
    }
  }

  /** One of n passes from the k-th on begins with a result for what is pending. */
  predicate AnsweredFrom(its: seq<Iteration>, k: nat, n: nat) {
    exists j :: k <= j < k + n && j < |its| && its[j].answered
  }

  /** So does one of any d consecutive passes. */
  predicate AnsweredWithin(d: nat, its: seq<Iteration>) {
    forall k: nat :: k <= |its| - d ==> AnsweredFrom(its, k, d)
  }

  lemma LaterPasses(its: seq<Iteration>, d: nat)
    requires its != [] && AnsweredWithin(d, its)
    ensures AnsweredWithin(d, its[1..])
  {
    forall k: nat | k <= |its[1..]| - d
      ensures AnsweredFrom(its[1..], k, d)
    {
      assert AnsweredFrom(its, k + 1, d);
      var j :| k + 1 <= j < k + 1 + d && j < |its| && its[j].answered;
      assert its[1..][j - 1].answered;
    }
  }

  /** The next n passes have a result, unless the schedule ends before. */
  predicate Due(its: seq<Iteration>, n: nat) {
    n <= |its| ==> AnsweredFrom(its, 0, n)
  }

  lemma DueAtStart(its: seq<Iteration>, d: nat)
    requires AnsweredWithin(d, its)
    ensures Due(its, d)
  {
  }

  lemma DueNext(its: seq<Iteration>, d: nat, n: nat)
    requires its != [] && 0 < n <= d && AnsweredWithin(d, its) && Due(its, n)
    ensures its[0].answered ==> Due(its[1..], d)
    ensures !its[0].answered ==> n > 1 && Due(its[1..], n - 1)
  {
    LaterPasses(its, d);
    if !its[0].answered && n <= |its| {
      var j :| 0 <= j < n && its[j].answered;
      assert its[1..][j - 1].answered;
    }
  }

  /** Nothing disturbs these passes: reads deliver and poll is not interrupted. */
  predicate Undisturbed(its: seq<Iteration>) {
    forall k :: 0 <= k < |its| ==> its[k].input.read.Delivered? && !its[k].interrupted
  }

  /** A result within d passes, of which some have gone by, gives a turn within d passes. */
  lemma {:induction false} TurnsTaken(cfg: Config, s: State, its: seq<Iteration>, d: nat, waited: nat)
    requires Inv(cfg, s) && s.tunOpen && ValidSchedule(cfg, s, its)
    requires Undisturbed(its) && waited < d && AnsweredWithin(d, its) && Due(its, d - waited)
    ensures |its| + waited < d * (Turns(cfg, s, its, true) + 1)
    decreases |its|
  {
    if its == [] {
      OneMoreTurn(d, 0);
    } else {
      var t := Iterate(cfg, s, its[0]);
      IterationProgress(cfg, s, its[0]);
      AnsweredIsFree(cfg, s, its[0]);
      LaterPasses(its, d);
      DueNext(its, d, d - waited);
      var n := Turns(cfg, t, its[1..], true);
      assert Turns(cfg, s, its, true) == n + if Free(s, its[0]) then 1 else 0;
      hide Inv, Iterates, Iterate, Free, AnsweredWithin, Due, Turns;
      TurnsTaken(cfg, t, its[1..], d, if its[0].answered then 0 else waited + 1);
      OneMoreTurn(d, n);
    }
  }

  lemma OneMoreTurn(d: nat, n: nat)
    ensures d * (0 + 1) == d && d * (n + 2) == d * (n + 1) + d
  {
  }

  lemma AnsweredIsFree(cfg: Config, s: State, it: Iteration)
    requires Inv(cfg, s) && it.input.read.Delivered?
    ensures it.answered ==> Free(s, it)
    ensures s.ipAvailable ==> s.tun != []
  {
    hide Justified, Packets, SentFrames, WellSized;
  }

  /** Without a poll before it, the first pass only brings one. */
  lemma FirstPass(cfg: Config, s: State, its: seq<Iteration>, d: nat)
    requires Inv(cfg, s) && s.tunOpen && ValidSchedule(cfg, s, its)
    requires its != [] && d > 0 && Undisturbed(its) && AnsweredWithin(d, its)
    ensures Iterates(cfg, s, its[0])
    ensures var t, rest := Iterate(cfg, s, its[0]), its[1..];
            && Inv(cfg, t) && t.tunOpen && ValidSchedule(cfg, t, rest) && Undisturbed(rest)
            && AnsweredWithin(d, rest)
            && Turns(cfg, s, its, false) == Turns(cfg, t, rest, true)
  {
    hide Inv, Iterates, Iterate, Free;
    IterationProgress(cfg, s, its[0]);
    LaterPasses(its, d);
  }

  /** Whether or not a poll came before, d passes for each of n turns and one more are enough. */
  lemma EnoughTurns(cfg: Config, s: State, its: seq<Iteration>, polled: bool, d: nat, n: nat)
    requires Inv(cfg, s) && s.tunOpen && ValidSchedule(cfg, s, its)
    requires its != [] && d > 0 && Undisturbed(its) && AnsweredWithin(d, its)
    requires |its| > d * n
    ensures Turns(cfg, s, its, polled) >= n
  {
    hide Inv, Iterates, Iterate, Turns, AnsweredWithin, Undisturbed, ValidSchedule, Due;
    if polled {
      DueAtStart(its, d);
      TurnsTaken(cfg, s, its, d, 0);
      FewerMultiples(d, n, Turns(cfg, s, its, true), |its|);
    } else {
      FirstPass(cfg, s, its, d);
      var t, rest := Iterate(cfg, s, its[0]), its[1..];
      DueAtStart(rest, d);
      TurnsTaken(cfg, t, rest, d, 0);
      FewerMultiples(d, n, Turns(cfg, t, rest, true), |rest| + 1);
    }
  }

  lemma FewerMultiples(d: nat, a: nat, b: nat, m: nat)
    ensures d * a < m <= d * (b + 1) ==> a <= b
  {
    if a > b {
      assert d * a >= d * (b + 1);
    }
  }

  /** When every accepted frame is answered within d passes, d passes for each packet, and one to
      start with, empty the queue. */
  lemma AnsweredScheduleDrains(cfg: Config, s: State, its: seq<Iteration>, d: nat)
    requires Inv(cfg, s) && s.tunOpen && ValidSchedule(cfg, s, its)
    requires d > 0 && Undisturbed(its) && AnsweredWithin(d, its)
    requires |its| > d * |s.tun|
    ensures IterateAll(cfg, s, its).tun == []
  {
    var polled := s.ipAvailable || s.tun == [];
    assert its != [];
    AnsweredIsFree(cfg, s, its[0]);
    hide Inv, ValidSchedule, IterateAll, Turns, Undisturbed, AnsweredWithin;
    EnoughTurns(cfg, s, its, polled, d, |s.tun|);
    DrainsByTurns(cfg, s, its, polled);
  }

  /** The promptest environment: with a result before every pass, one pass more than there are packets. */
  lemma PromptScheduleDrains(cfg: Config, s: State, its: seq<Iteration>)
    requires Inv(cfg, s) && s.tunOpen && ValidSchedule(cfg, s, its)
    requires Undisturbed(its) && forall k :: 0 <= k < |its| ==> its[k].answered
    requires |its| > |s.tun|
    ensures IterateAll(cfg, s, its).tun == []
  {
    forall k: nat | k <= |its| - 1
      ensures AnsweredFrom(its, k, 1)
    {
      assert its[k].answered;
    }
    hide Inv, ValidSchedule, IterateAll, Undisturbed, AnsweredFrom;
    AnsweredScheduleDrains(cfg, s, its, 1);
  }
}
