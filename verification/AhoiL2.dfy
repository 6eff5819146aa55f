/** The event flags of the acoustic-modem L2 adapter (l2/ahoi_posix_host/src/fullsdkl2a.c). */
module AhoiL2 {
  import opened Bytes

  datatype L2Event = ConnectivityAvailable | TransmissionResult | DownlinkAvailable

  datatype L2Status = L2aSuccess | L2aL2Error | L2aBufferErr

  /** Flags, and what the layer above has seen of them. */
  datatype State = State(
    connectivity: bool,
    result: bool,
    downlink: bool,
    requested: bool,      // processing_required has been called since the last processing
    unreported: nat,      // successful sends not yet covered by a transmission result
    signals: nat,         // downlink callbacks not yet covered by a read
    sent: nat,            // successful sends so far
    results: nat,         // transmission results so far
    readCount: nat)           // downlink reads so far

  /** Successful sends made from inside the three callbacks of one `l2a_process`. */
  datatype Reentry = Reentry(inConnectivity: nat, inResult: nat, inRead: nat)

  const NO_REENTRY: Reentry := Reentry(0, 0, 0)

  /** `l2a_initialize`, after the modem has connected. */
  const CONNECTED: State := State(true, false, false, true, 0, 0, 0, 0, 0)

  function Send(s: State, ok: bool): State {
    if ok then s.(result := true, requested := true, unreported := s.unreported + 1, sent := s.sent + 1) else s
  }

  function SendMany(s: State, n: nat): State
    decreases n
  {
    if n == 0 then s else SendMany(Send(s, true), n - 1)
  }

  function Downlink(s: State): State {
    s.(downlink := true, requested := true, signals := s.signals + 1)
  }

  function ReportConnectivity(s: State, r: Reentry): State {
    if s.connectivity then SendMany(s, r.inConnectivity) else s
  }

  function ReportResult(s: State, r: Reentry): State {
    if s.result then SendMany(s.(unreported := 0, results := s.results + 1), r.inResult) else s
  }

  function ReadDownlink(s: State, r: Reentry): State {
    if s.downlink then SendMany(s.(signals := 0, readCount := s.readCount + 1), r.inRead) else s
  }

  /** `l2a_process`: the three tests in order, then every flag is cleared. The caller withdraws its
      request before the call. */
  function Process(s: State, r: Reentry): State {
    var t := ReadDownlink(ReportResult(ReportConnectivity(s.(requested := false), r), r), r);
    t.(connectivity := false, result := false, downlink := false)
  }

  /** The flags tell the truth, and whoever must look at them has been asked to. */
  predicate Inv(s: State) {
    && (s.result <==> s.unreported > 0)
    && (s.downlink <==> s.signals > 0)
    && (s.connectivity || s.result || s.downlink ==> s.requested)
    && s.results + s.unreported <= s.sent
  }

  lemma {:induction false} SendManyCounts(s: State, n: nat)
    ensures SendMany(s, n) ==
      if n == 0 then s
      else s.(result := true, requested := true, unreported := s.unreported + n, sent := s.sent + n)
    decreases n
  {
    if n > 0 {
      SendManyCounts(Send(s, true), n - 1);
    }
  }

  /** Sends that re-enter after the result flag has been tested. */
  function LateSends(s: State, r: Reentry): nat {
    (if s.result || (s.connectivity && r.inConnectivity > 0) then r.inResult else 0)
    + (if s.downlink then r.inRead else 0)
  }

  /** Processing reports each batch of sends with exactly one result, reads exactly once for the
      downlink flag, reports nothing that was not sent, and leaves no flag set. */
  lemma ProcessReports(s: State, r: Reentry)
    requires Inv(s)
    ensures var early := if s.connectivity then r.inConnectivity else 0;
            Process(s, r).results == s.results + if s.unreported + early > 0 then 1 else 0
    ensures Process(s, r).readCount == s.readCount + if s.signals > 0 then 1 else 0
    ensures Process(s, r).unreported == LateSends(s, r) && Process(s, r).signals == 0
    ensures !Process(s, r).connectivity && !Process(s, r).result && !Process(s, r).downlink
  {
    ProcessUnfolds(s, r);
  }

  lemma ProcessUnfolds(s: State, r: Reentry)
    ensures forall t: State, n: nat :: SendMany(t, n) == if n == 0 then t
              else t.(result := true, requested := true, unreported := t.unreported + n, sent := t.sent + n)
  {
    forall t: State, n: nat
      ensures SendMany(t, n) == if n == 0 then t
                else t.(result := true, requested := true, unreported := t.unreported + n, sent := t.sent + n)
    {
      SendManyCounts(t, n);
    }
  }

  /** The flags stay truthful exactly when no callback sends after the result flag was tested:
      clearing every flag at the end forgets those sends. */
  lemma ProcessKeepsInvIff(s: State, r: Reentry)
    requires Inv(s)
    ensures Inv(Process(s, r)) <==> LateSends(s, r) == 0
  {
    ProcessUnfolds(s, r);
  }

  datatype Step = SendStep(ok: bool) | DownlinkStep | ProcessStep

  function Next(s: State, step: Step): State {
    match step
    case SendStep(ok) => Send(s, ok)
    case DownlinkStep => Downlink(s)
    case ProcessStep => Process(s, NO_REENTRY)
  }

  function Run(s: State, steps: seq<Step>): State
    decreases |steps|
  {
    if steps == [] then s else Run(Next(s, steps[0]), steps[1..])
  }

  /** Processing steps that find a send to report, and those that find a downlink to read. */
  function Batches(s: State, steps: seq<Step>): nat
    decreases |steps|
  {
    if steps == [] then 0
    else (if steps[0].ProcessStep? && s.unreported > 0 then 1 else 0) + Batches(Next(s, steps[0]), steps[1..])
  }

  function SignalledProcessings(s: State, steps: seq<Step>): nat
    decreases |steps|
  {
    if steps == [] then 0
    else (if steps[0].ProcessStep? && s.signals > 0 then 1 else 0) + SignalledProcessings(Next(s, steps[0]), steps[1..])
  }

  /** Over every run without re-entry: one result for each batch, one read for each signalled
      processing, and no result without a send. */
  lemma {:induction false} RunReports(s: State, steps: seq<Step>)
    requires Inv(s)
    ensures Inv(Run(s, steps))
    ensures Run(s, steps).results == s.results + Batches(s, steps)
    ensures Run(s, steps).readCount == s.readCount + SignalledProcessings(s, steps)
    decreases |steps|
  {
    if steps != [] {
      if steps[0].ProcessStep? {
        ProcessReports(s, NO_REENTRY);
        ProcessKeepsInvIff(s, NO_REENTRY);
      }
      RunReports(Next(s, steps[0]), steps[1..]);
    }
  }

  /** In particular from the connected state on, where nothing has been sent or reported. */
  lemma ConnectedReports(steps: seq<Step>)
    ensures var t := Run(CONNECTED, steps);
            && Inv(t) && t.results == Batches(CONNECTED, steps) <= t.sent
            && t.readCount == SignalledProcessings(CONNECTED, steps)
  {
    RunReports(CONNECTED, steps);
  }

  // ---------------------------------------------------------------- the C file

  class L2a {
    var event: set<L2Event>
    var requested: bool
    const rxBuffer: array<byte>
    ghost var unreported: nat
    ghost var signals: nat
    ghost var sent: nat
    ghost var results: nat
    ghost var readCount: nat

    ghost function View(): State
      reads this
    {
      State(ConnectivityAvailable in event, TransmissionResult in event, DownlinkAvailable in event,
            requested, unreported, signals, sent, results, readCount)
    }

    ghost predicate Valid()
      reads this
    {
      Inv(View())
    }

    constructor (rxBuffer: array<byte>)
      ensures Valid() && View() == CONNECTED && this.rxBuffer == rxBuffer
    {
      this.rxBuffer := rxBuffer;
      event, requested := {ConnectivityAvailable}, true;
      unreported, signals, sent, results, readCount := 0, 0, 0, 0, 0;
    }

    /** `l2a_send_data`; `written` is whether the modem took the packet, interrupted calls having
        been retried. */
    method SendData(written: bool) returns (st: L2Status)
      modifies this
      ensures View() == Send(old(View()), written) && (old(Valid()) ==> Valid())
      ensures st == if written then L2aSuccess else L2aL2Error
    {
      if !written {
        return L2aL2Error;
      }
      event := event + {TransmissionResult};
      requested := true;
      unreported, sent := unreported + 1, sent + 1;
      st := L2aSuccess;
    }

    /** A callback of the layer above that sends n packets. */
    method SendFromCallback(n: nat)
      modifies this
      ensures View() == SendMany(old(View()), n) && (old(Valid()) ==> Valid())
    {
      ghost var target := SendMany(View(), n);
      for i := 0 to n
        invariant SendMany(View(), n - i) == target && (old(Valid()) ==> Valid())
      {
        var _ := SendData(true);
      }
    }

    /** `_downlink_available_callback`. */
    method DownlinkAvailableCallback()
      modifies this
      ensures View() == Downlink(old(View())) && (old(Valid()) ==> Valid())
    {
      event := event + {DownlinkAvailable};
      requested := true;
      signals := signals + 1;
    }

    /** `l2a_process`, called after the request has been withdrawn. */
    method ProcessEvents(r: Reentry)
      modifies this
      ensures View() == Process(old(View()), r)
      ensures old(Valid()) ==> (Valid() <==> LateSends(old(View()), r) == 0)
    {
      hide SendMany, Inv, LateSends;
      ghost var before := View();
      requested := false;
      ghost var s := View();
      if ConnectivityAvailable in event {
        SendFromCallback(r.inConnectivity);
      }
      assert View() == ReportConnectivity(s, r);
      if TransmissionResult in event {
        unreported, results := 0, results + 1;
        SendFromCallback(r.inResult);
      }
      assert View() == ReportResult(ReportConnectivity(s, r), r);
      if DownlinkAvailable in event {
        signals, readCount := 0, readCount + 1;
        SendFromCallback(r.inRead);
      }
      assert View() == ReadDownlink(ReportResult(ReportConnectivity(s, r), r), r);
      event := {};
      if Inv(before) {
        ProcessKeepsInvIff(before, r);
      }
    }

    /** `packet_consumer`: what `data_received` is told; a packet too large for the buffer leaves it alone. */
    method PacketConsumer(payload: bytes) returns (size: nat, st: L2Status)
      modifies rxBuffer
      ensures st == if |payload| <= rxBuffer.Length then L2aSuccess else L2aBufferErr
      ensures st.L2aSuccess? ==> size == |payload| && rxBuffer[..] == payload + old(rxBuffer[|payload|..])
      ensures st.L2aBufferErr? ==> size == 0 && rxBuffer[..] == old(rxBuffer[..])
    {
      if |payload| > rxBuffer.Length {
        return 0, L2aBufferErr;
      }
      forall k | 0 <= k < |payload| {
        rxBuffer[k] := payload[k];
      }
      size, st := |payload|, L2aSuccess;
    }
  }
}
