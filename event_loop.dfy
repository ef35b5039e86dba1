/** One wake up of the server's poll loop (server.cpp:294-415) as a function
    of the state and of what the two sockets and the clock delivered. */
module EventLoop {
  import opened Addresses
  import opened Slots
  import opened Session

  /** What the external socket delivered on this wake up: nothing, a failed
      `recvfrom`, or a datagram from a client together with whether the
      forward to its endpoint (`sendto`, server.cpp:343) succeeded. */
  datatype ClientEvent =
    | NoClientDatagram
    | ClientRecvFailed
    | ClientDatagram(from: SockAddr, datagram: seq<Byte>, forwarded: bool)

  /** What the internal socket delivered: nothing, a failed `recvfrom`, or a
      datagram from the pipeline together with the clients whose `sendto`
      fails in the fan-out (server.cpp:366). */
  datatype PipelineEvent =
    | NoPipelineDatagram
    | PipelineRecvFailed
    | PipelineDatagram(datagram: seq<Byte>, unreachable: set<SockAddr>)

  /** One return of `poll`: the value of `g_get_monotonic_time` and the two
      socket events. */
  datatype Wake = Wake(now: int, client: ClientEvent, pipeline: PipelineEvent)

  /** The state after a wake up, the datagrams sent in order, and whether the
      client list is printed (`has_addition_occurred || has_removal_occurred`). */
  datatype Outcome = Outcome(state: State, sent: seq<Send>, report: bool)

  /** Part-way through a wake up: `stopped` records that a `continue` ended
      the iteration early. */
  datatype Progress = Progress(state: State, sent: seq<Send>, added: bool, stopped: bool)

  /** The external socket's half (server.cpp:303-349). A failed receive, or a
      failed forward of a routed sender, ends the iteration. */
  function ClientPhase(s: State, now: int, ev: ClientEvent): (p: Progress)
    requires Inv(s)
    ensures Inv(p.state) && p.state.lastSweep == s.lastSweep
    ensures forall x :: x in p.sent ==> x.to.ToEndpoint?
    ensures !ev.ClientDatagram? ==> p == Progress(s, [], false, ev.ClientRecvFailed?)
    ensures ev.ClientDatagram? ==>
              && (p.state, p.added) == OnClient(s, ev.from, now)
              && p.stopped == (ev.from in p.state.routes && !ev.forwarded)
              && p.sent == (if ev.from in p.state.routes && ev.forwarded
                            then [Send(ToEndpoint(p.state.routes[ev.from]), Received(ev.datagram))]
                            else [])
  {
    match ev
    case NoClientDatagram => Progress(s, [], false, false)
    case ClientRecvFailed => Progress(s, [], false, true)
    case ClientDatagram(from, d, ok) =>
      var (s1, added) := OnClient(s, from, now);
      if from !in s1.routes then Progress(s1, [], added, false)
      else if !ok then Progress(s1, [], added, true)
      else Progress(s1, [Send(ToEndpoint(s1.routes[from]), Received(d))], added, false)
  }

  /** The internal socket's half (server.cpp:352-372), skipped once the
      iteration has ended. A failed receive ends the iteration; otherwise the
      datagram goes to every client in set order. */
  function PipelinePhase(p: Progress, ev: PipelineEvent): (q: Progress)
    ensures q.state == p.state && q.added == p.added
    ensures q.stopped <==> p.stopped || ev.PipelineRecvFailed?
    ensures q.sent == if !p.stopped && ev.PipelineDatagram?
                      then p.sent + FanOut(p.state.clients, Received(ev.datagram), ev.unreachable)
                      else p.sent
  {
    if p.stopped then p
    else
      match ev
      case NoPipelineDatagram => p
      case PipelineRecvFailed => p.(stopped := true)
      case PipelineDatagram(d, bad) =>
        p.(sent := p.sent + FanOut(p.state.clients, Received(d), bad))
  }

  /** One iteration of the poll loop. The sweep and the report are reached
      only when no `continue` ended the iteration first. */
  function Step(s: State, w: Wake): (r: Outcome)
    requires Inv(s)
    ensures Inv(r.state)
  {
    var p := PipelinePhase(ClientPhase(s, w.now, w.client), w.pipeline);
    if p.stopped then Outcome(p.state, p.sent, false)
    else
      var (s2, removed) := Sweep(p.state, w.now);
      Outcome(s2, p.sent, p.added || removed)
  }

  /** Every wake up keeps the compositor picture in agreement with the
      assignment. */
  lemma StepDisplays(s: State, w: Wake)
    requires Inv(s) && Displayed(s)
    ensures Displayed(Step(s, w).state)
  {
    var p := ClientPhase(s, w.now, w.client);
    if w.client.ClientDatagram? {
      OnClientDisplays(s, w.client.from, w.now);
    }
    SweepDisplays(p.state, w.now);
  }

  /** A client keeps its endpoint for as long as it stays: no wake up
      re-routes a client that is still present afterwards. */
  lemma StepKeepsRoutes(s: State, w: Wake)
    requires Inv(s)
    ensures forall c :: c in s.routes && c in Step(s, w).state.routes ==>
              Step(s, w).state.routes[c] == s.routes[c]
  {
    var p := ClientPhase(s, w.now, w.client);
    SweepSurvivors(p.state, w.now);
  }

  /** Routing fidelity: the only datagram sent to an internal endpoint is the
      received client datagram, and it goes to the endpoint that the sender
      is routed to, which the sender still holds at the end of the wake up. */
  lemma StepForwardsToRoute(s: State, w: Wake)
    requires Inv(s)
    ensures var r := Step(s, w);
      forall k :: 0 <= k < |r.sent| && r.sent[k].to.ToEndpoint? ==>
        && k == 0 && w.client.ClientDatagram?
        && w.client.from in r.state.routes
        && r.sent[k] == Send(ToEndpoint(r.state.routes[w.client.from]), Received(w.client.datagram))
  {
    var p := ClientPhase(s, w.now, w.client);
    var q := PipelinePhase(p, w.pipeline);
    var r := Step(s, w);
    assert r.sent == q.sent;
    if !p.stopped && w.pipeline.PipelineDatagram? {
      var f := FanOut(p.state.clients, Received(w.pipeline.datagram), w.pipeline.unreachable);
      ClientSendsAfter(p.sent, f);
    }
    if w.client.ClientDatagram? && w.client.from in p.state.routes {
      SweepSurvivors(q.state, w.now);
      assert !Idle(q.state, w.client.from, w.now);
    }
  }

  /** Appending sends to clients adds no send to an endpoint. */
  lemma ClientSendsAfter(a: seq<Send>, f: seq<Send>)
    requires forall k :: 0 <= k < |f| ==> f[k].to.ToClient?
    ensures forall k :: 0 <= k < |a + f| && (a + f)[k].to.ToEndpoint? ==> k < |a| && (a + f)[k] == a[k]
  {
  }

  /** A datagram from a client that holds or obtains an endpoint is sent on
      to that endpoint when the forward succeeds. */
  lemma RoutedSenderIsForwarded(s: State, w: Wake)
    requires Inv(s) && w.client.ClientDatagram? && w.client.forwarded
    requires w.client.from in s.routes || |s.endpointsFree| > 0
    ensures var r := Step(s, w);
      && |r.sent| > 0 && w.client.from in r.state.routes
      && r.sent[0] == Send(ToEndpoint(r.state.routes[w.client.from]), Received(w.client.datagram))
  {
    var p := ClientPhase(s, w.now, w.client);
    var q := PipelinePhase(p, w.pipeline);
    SweepSurvivors(q.state, w.now);
    assert !Idle(q.state, w.client.from, w.now);
  }

  /** The fan-out: a pipeline datagram reaches exactly the clients present
      after the client half whose send does not fail, when the client half
      did not end the iteration. */
  lemma StepFansOut(s: State, w: Wake, c: SockAddr)
    requires Inv(s) && w.pipeline.PipelineDatagram?
    ensures var p := ClientPhase(s, w.now, w.client);
      Send(ToClient(c), Received(w.pipeline.datagram)) in Step(s, w).sent <==>
        !p.stopped && c in p.state.clients && c !in w.pipeline.unreachable
  {
    var p := ClientPhase(s, w.now, w.client);
    var q := PipelinePhase(p, w.pipeline);
    var x := Send(ToClient(c), Received(w.pipeline.datagram));
    assert Step(s, w).sent == q.sent;
    assert x !in p.sent;
    if !p.stopped {
      var f := FanOut(p.state.clients, Received(w.pipeline.datagram), w.pipeline.unreachable);
      assert q.sent == p.sent + f;
      assert x in q.sent <==> x in f;
    }
  }

  /** A client that sent on this wake up is never evicted by the sweep of the
      same wake up: its activity time is the current time. */
  lemma SenderSurvives(s: State, w: Wake)
    requires Inv(s) && w.client.ClientDatagram?
    requires w.client.from in ClientPhase(s, w.now, w.client).state.routes
    ensures w.client.from in Step(s, w).state.clients
  {
    var p := ClientPhase(s, w.now, w.client);
    assert !Idle(PipelinePhase(p, w.pipeline).state, w.client.from, w.now);
  }

  /** With all four endpoints taken, a datagram from an unknown address
      changes nothing and is not forwarded (the TODO at server.cpp:314). */
  lemma FullPoolTurnsAway(s: State, w: Wake)
    requires Inv(s) && |s.clients| == Capacity
    requires w.client.ClientDatagram? && w.client.from !in s.clients
    ensures ClientPhase(s, w.now, w.client) == Progress(s, [], false, false)
    ensures forall k :: 0 <= k < |Step(s, w).sent| ==> !Step(s, w).sent[k].to.ToEndpoint?
  {
    StepForwardsToRoute(s, w);
  }

  /** A failed receive on the external socket ends the iteration before
      anything changes: no sweep runs and nothing is reported, however long
      the sweep has been due. */
  lemma ClientRecvFailureSkipsAll(s: State, w: Wake)
    requires Inv(s) && w.client.ClientRecvFailed?
    ensures Step(s, w) == Outcome(s, [], false)
  {
  }

  /** A failed receive on the internal socket ends the iteration after the
      client half: no sweep runs and nothing is reported. */
  lemma PipelineRecvFailureSkipsSweep(s: State, w: Wake)
    requires Inv(s) && w.pipeline.PipelineRecvFailed?
    ensures Step(s, w).state == ClientPhase(s, w.now, w.client).state
    ensures !Step(s, w).report
  {
  }

    /** A failed forward of a routed sender ends the wake up at once: the
      pipeline datagram is not read, the sweep does not run, nothing is
      sent and nothing is reported; only the client half's admission and
      activity stamp remain. */
  lemma ForwardFailureSkipsAll(s: State, w: Wake)
    requires Inv(s) && w.client.ClientDatagram? && !w.client.forwarded
    requires w.client.from in ClientPhase(s, w.now, w.client).state.routes
    ensures Step(s, w) == Outcome(ClientPhase(s, w.now, w.client).state, [], false)
  {
  }

/** When the forward of a newly admitted client fails, the admission stays
      in effect but the iteration ends before the report, so the change is
      not printed on this wake up. */
  lemma ForwardFailureHidesAdmission(s: State, w: Wake)
    requires Inv(s) && w.client.ClientDatagram? && !w.client.forwarded
    requires w.client.from !in s.clients && |s.endpointsFree| > 0
    ensures w.client.from in Step(s, w).state.clients
    ensures !Step(s, w).report
  {
  }

  /** When nothing ends the iteration early, a printed report means that the
      client set changed. */
  lemma ReportMeansChange(s: State, w: Wake)
    requires Inv(s)
    requires !w.client.ClientRecvFailed? && !w.pipeline.PipelineRecvFailed?
    requires !(w.client.ClientDatagram? && !w.client.forwarded)
    ensures Step(s, w).report ==> exists c :: (c in Step(s, w).state.clients) != (c in s.clients)
  {
    var p := ClientPhase(s, w.now, w.client);
    var r := Step(s, w);
    if w.client.ClientDatagram? && p.added {
      assert w.client.from !in s.clients;
      SenderSurvives(s, w);
    } else if Sweep(p.state, w.now).1 {
      var c :| c in p.state.clients && Idle(p.state, c, w.now);
      assert c in s.clients && c !in r.state.clients;
    }
  }

  /** ... and a silent wake up leaves the client set as it was. */
  lemma SilenceMeansNoChange(s: State, w: Wake)
    requires Inv(s)
    requires !w.client.ClientRecvFailed? && !w.pipeline.PipelineRecvFailed?
    requires !(w.client.ClientDatagram? && !w.client.forwarded)
    ensures !Step(s, w).report ==> forall c :: c in Step(s, w).state.clients <==> c in s.clients
  {
    var p := ClientPhase(s, w.now, w.client);
    if !Step(s, w).report {
      assert forall c :: c in p.state.clients <==> c in s.clients;
      assert !Sweep(p.state, w.now).1;
    }
  }

  /** One wake up keeps the free-position stack packed. */
  lemma StepKeepsPacked(s: State, w: Wake)
    requires Inv(s) && Packed(s)
    ensures Packed(Step(s, w).state)
  {
    var p := ClientPhase(s, w.now, w.client);
    if w.client.ClientDatagram? {
      OnClientKeepsPacked(s, w.client.from, w.now);
    }
    SweepKeepsPacked(PipelinePhase(p, w.pipeline).state, w.now);
  }

  /** The state after a run of wake ups, one after the other. */
  function Run(s: State, ws: seq<Wake>): (r: State)
    requires Inv(s)
    ensures Inv(r)
    decreases |ws|
  {
    if ws == [] then s else Run(Step(s, ws[0]).state, ws[1..])
  }

  /** Every run keeps the stack packed. */
  lemma {:induction false} RunKeepsPacked(s: State, ws: seq<Wake>)
    requires Inv(s) && Packed(s)
    ensures Packed(Run(s, ws))
    decreases |ws|
  {
    if ws != [] {
      StepKeepsPacked(s, ws[0]);
      RunKeepsPacked(Step(s, ws[0]).state, ws[1..]);
    }
  }

  /** In every state reachable from start-up the n clients occupy exactly
      positions 0 .. n-1, and the next admission takes position n. */
  lemma ReachableIsDense(now: int, ws: seq<Wake>, from: SockAddr)
    ensures var r := Run(Initial(now), ws);
      forall p: Ix :: p in r.slotOf.Values <==> p < |r.clients|
    ensures var r := Run(Initial(now), ws);
      from !in r.clients && |r.endpointsFree| > 0 ==>
        Admit(r, from).0.slotOf[Last(r.endpointsFree)] == |r.clients|
  {
    InitialPacked(now);
    RunKeepsPacked(Initial(now), ws);
    var r := Run(Initial(now), ws);
    PackedIsDense(r);
    if from !in r.clients && |r.endpointsFree| > 0 {
      AdmitTakesLowest(r, from);
    }
  }
}
