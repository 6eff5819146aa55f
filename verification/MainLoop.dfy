/** The loop of main.c: the SDK, the adaptation layer and poll take turns. */
module MainLoop {
  import opened Bytes
  import opened Worker
  import opened AdaptationLayer
  import opened WatchTable

  /** The function pointer `schc_al_tun_received_handler`. */
  const TUN_HANDLER: Callback := 1

  /** The tunnel is watched with its handler, which serves no other descriptor. */
  ghost predicate Watches(platform: Platform, tunFd: int)
    reads platform, platform.watched
  {
    platform.Valid() && WatchesTunnel(platform.Entries(), tunFd)
  }

  predicate WatchesTunnel(entries: seq<Slot>, tunFd: int) {
    && Slot(tunFd, Some(TUN_HANDLER)) in entries
    && forall e :: e in entries && e.cb == Some(TUN_HANDLER) ==> e.fd == tunFd
  }

  /** Watching the tunnel, and then other descriptors with other handlers, leads there. */
  lemma TunnelWatched(entries: seq<Slot>, tunFd: int, fd: int, cb: Option<Callback>)
    requires forall e :: e in entries ==> e.cb != Some(TUN_HANDLER)
    requires cb != Some(TUN_HANDLER)
    ensures WatchesTunnel(entries + [Slot(tunFd, Some(TUN_HANDLER))], tunFd)
    ensures WatchesTunnel(entries + [Slot(tunFd, Some(TUN_HANDLER))] + [Slot(fd, cb)], tunFd)
  {
  }

  /** Whatever else is ready, poll runs the tunnel's handler exactly once if the tunnel is readable,
      and otherwise not at all. */
  lemma TunnelDispatchedOnce(entries: seq<Slot>, tunFd: int, ready: set<int>)
    requires Registered(entries) && WatchesTunnel(entries, tunFd)
    ensures HandlerCalls(Dispatched(entries, ready)) == if tunFd in ready then 1 else 0
  {
    var e, d := Slot(tunFd, Some(TUN_HANDLER)), Dispatched(entries, ready);
    DispatchedOnce(entries, ready, e);
    forall c | c in d && c.cb == Some(TUN_HANDLER)
      ensures c == e
    {
      DispatchedOnce(entries, ready, c);
    }
    hide Registered, WatchesTunnel, Dispatched;
    CallsCounted(d, e);
  }

  /** How often a list of served entries calls the tunnel's handler. */
  function HandlerCalls(called: seq<Slot>): nat {
    if called == [] then 0
    else HandlerCalls(called[..|called| - 1]) + if called[|called| - 1].cb == Some(TUN_HANDLER) then 1 else 0
  }

  lemma {:induction false} CallsCounted(called: seq<Slot>, e: Slot)
    requires e.cb == Some(TUN_HANDLER)
    requires forall c :: c in called && c.cb == Some(TUN_HANDLER) ==> c == e
    ensures HandlerCalls(called) == multiset(called)[e]
    decreases |called|
  {
    if called != [] {
      var rest := called[..|called| - 1];
      assert called == rest + [called[|called| - 1]];
      CallsCounted(rest, e);
    }
  }

  /** One pass: the SDK may report a result, the adaptation layer runs if it asked to, poll returns.
      Other descriptors may be ready too; their callbacks leave the adaptation layer alone. */
  method Pass(al: SchcAl, platform: Platform, tunFd: int, it: Iteration, others: set<int>)
    requires al.Valid() && al.tunOpen && Watches(platform, tunFd)
    requires Iterates(al.cfg, al.View(), it)
    modifies al, al.netBuffer
    ensures al.Valid() && al.tunOpen && Watches(platform, tunFd)
    ensures al.View() == Iterate(al.cfg, old(al.View()), it)
  {
    ghost var s := al.View();
    IterationProgress(al.cfg, s, it);
    hide Inv, Ready;
    PendingIsOngoing(al.cfg, s);
    if it.answered && OngoingTransmission in al.event {
      al.NetTransmissionResult();
    }
    assert al.View() == Answer(s, it.answered);
    if al.processingRequired {
      var _ := al.ProcessEvents(it.input);
    }
    PollRound(al, platform, tunFd, it.interrupted, others);
  }

  /** Poll and the handlers that it calls. */
  method PollRound(al: SchcAl, platform: Platform, tunFd: int, interrupted: bool, others: set<int>)
    requires al.Valid() && al.tunOpen && Watches(platform, tunFd)
    modifies al
    ensures al.Valid() && al.tunOpen && al.View() == Poll(old(al.View()), interrupted)
  {
    hide Inv, WatchesTunnel;
    ghost var t := al.View();
    var ready: set<int> := if al.tun != [] then others + {tunFd} else others - {tunFd};
    TunnelDispatchedOnce(platform.Entries(), tunFd, ready);
    var called := platform.EnterLowPower(ready, interrupted);
    assert called[..|called|] == called;
    for i := 0 to |called|
      invariant al.Valid() && al.tunOpen
      invariant al.View() == if HandlerCalls(called[..i]) == 0 then t else TunReceived(t)
      invariant HandlerCalls(called[..i]) <= HandlerCalls(called)
    {
      assert called[..i + 1][..i] == called[..i];
      CallsGrow(called, i + 1);
      if called[i].cb == Some(TUN_HANDLER) {
        al.TunReceivedHandler();
      }
    }
  }

  lemma {:induction false} CallsGrow(called: seq<Slot>, n: nat)
    requires n <= |called|
    ensures HandlerCalls(called[..n]) <= HandlerCalls(called)
    decreases |called| - n
  {
    if n == |called| {
      assert called[..n] == called;
    } else {
      assert called[..n + 1][..n] == called[..n];
      CallsGrow(called, n + 1);
    }
  }

  lemma PendingIsOngoing(cfg: Config, s: State)
    requires Inv(cfg, s)
    ensures s.pending != [] <==> s.ongoing
  {
  }

  /** The loop over a whole schedule: it follows the specification, and takes one packet for each
      turn until the queue is empty. */
  method Loop(al: SchcAl, platform: Platform, tunFd: int, schedule: seq<Iteration>, others: seq<set<int>>)
    requires al.Valid() && al.tunOpen && Watches(platform, tunFd) && |others| == |schedule|
    requires ValidSchedule(al.cfg, al.View(), schedule)
    modifies al, al.netBuffer
    ensures al.Valid() && al.View() == IterateAll(al.cfg, old(al.View()), schedule)
    ensures var polled := old(IpPacketAvailable in al.event || al.tun == []);
            var left := old(|al.tun|) - Turns(al.cfg, old(al.View()), schedule, polled);
            |al.tun| == if left > 0 then left else 0
  {
    ghost var s := al.View();
    SignalledHasPacket(al.cfg, s);
    DrainsByTurns(al.cfg, s, schedule, s.ipAvailable || s.tun == []);
    hide Inv, Iterate, Iterates, Turns;
    for i := 0 to |schedule|
      invariant al.Valid() && al.tunOpen && Watches(platform, tunFd)
      invariant ValidSchedule(al.cfg, al.View(), schedule[i..])
      invariant IterateAll(al.cfg, al.View(), schedule[i..]) == IterateAll(al.cfg, s, schedule)
    {
      assert schedule[i..][0] == schedule[i] && schedule[i..][1..] == schedule[i + 1..];
      Pass(al, platform, tunFd, schedule[i], others[i]);
    }
  }

  lemma SignalledHasPacket(cfg: Config, s: State)
    requires Inv(cfg, s)
    ensures s.ipAvailable ==> s.tun != []
  {
  }
}
