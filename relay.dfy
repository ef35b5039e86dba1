/** The server's global containers as one object whose methods update them
    in place, step by step as `main` does (server.cpp:27-124, 166-168,
    294-415). Each method is proved to leave the object in the state that
    the matching function of `Session` or `EventLoop` computes, so every
    property proved about those functions holds of the object. */
module Relay {
  import opened Addresses
  import opened Slots
  import opened Session
  import opened EventLoop

  class Server {
    var endpointsFree: seq<Ix>      // udpsrc_sockaddrs_available
    var slotsFree: seq<Ix>          // positions_available
    var clients: seq<SockAddr>      // client_sockaddrs
    var routes: map<SockAddr, Ix>   // client_routes
    var activity: map<SockAddr, int> // client_activity
    var slotOf: map<Ix, Ix>         // udpsrc_positions
    var pads: seq<Pad>              // xpos, ypos, alpha of compositor_pads
    var lastSweep: int              // client_activity_check

    /** The containers as a value. */
    ghost function Model(): State
      reads this
    {
      State(endpointsFree, slotsFree, clients, routes, activity, slotOf, pads, lastSweep)
    }

    ghost predicate Valid()
      reads this
    {
      Inv(Model())
    }

    /** Start-up: `init_udpsrcs` pushes the endpoints 0..3 in order,
        `init_positions_available` pushes 3, 2, 1, 0, and the clock reading
        taken before the loop starts the first sweep interval. */
    constructor (now: int)
      ensures Valid() && Displayed(Model())
      ensures Model() == Initial(now)
    {
      var free: seq<Ix> := [];
      var i := 0;
      while i < Capacity
        invariant 0 <= i <= Capacity && |free| == i
        invariant forall k :: 0 <= k < i ==> free[k] == k
      {
        free := free + [i];
        i := i + 1;
      }
      var positions: seq<Ix> := [];
      positions := positions + [3];
      positions := positions + [2];
      positions := positions + [1];
      positions := positions + [0];
      endpointsFree, slotsFree := free, positions;
      clients, routes, activity, slotOf := [], map[], map[], map[];
      pads := [Pad(0, 0, true), Pad(0, 0, true), Pad(0, 0, true), Pad(0, 0, true)];
      lastSweep := now;
      new;
      assert free == [0, 1, 2, 3];
    }

    /** The admission of an unseen sender while an endpoint is free
        (server.cpp:310-335). */
    method AdmitSender(from: SockAddr) returns (added: bool)
      requires Valid()
      modifies this
      ensures (Model(), added) == Admit(old(Model()), from)
    {
      added := false;
      if from !in clients {
        if |endpointsFree| > 0 {
          clients := Insert(clients, from);
          var e := Last(endpointsFree);
          routes := routes[from := e];
          var p := Last(slotsFree);
          slotOf := slotOf[e := p];
          pads := pads[e := Shown(p)];
          slotsFree := DropLast(slotsFree);
          endpointsFree := DropLast(endpointsFree);
          added := true;
        }
      }
    }

    /** The activity refresh of a routed sender (server.cpp:338-340). */
    method TouchSender(from: SockAddr, now: int)
      modifies this
      ensures Model() == Touch(old(Model()), from, now)
    {
      if from in routes {
        activity := activity[from := now];
      }
    }

    /** The client half up to the forward (server.cpp:310-340). */
    method OnClientDatagram(from: SockAddr, now: int) returns (added: bool)
      requires Valid()
      modifies this
      ensures Valid()
      ensures (Model(), added) == OnClient(old(Model()), from, now)
    {
      added := AdmitSender(from);
      TouchSender(from, now);
      assert Model() == OnClient(old(Model()), from, now).0;
    }

    /** The fan-out loop (server.cpp:364-371): one send per client in set
        order; a failed send is skipped. */
    method SendToClients(data: seq<Byte>, failed: set<SockAddr>) returns (sent: seq<Send>)
      ensures sent == FanOut(clients, data, failed)
    {
      sent := [];
      var i := 0;
      while i < |clients|
        invariant 0 <= i <= |clients|
        invariant sent + FanOut(clients[i..], data, failed) == FanOut(clients, data, failed)
      {
        var c := clients[i];
        var out: seq<Send> := if c in failed then [] else [Send(ToClient(c), data)];
        FanOutStep(clients, i, data, failed, sent);
        sent := sent + out;
        i := i + 1;
      }
    }

    /** The collect loop of the sweep (server.cpp:379-385). */
    method CollectIdle(now: int) returns (idle: seq<SockAddr>)
      requires forall c :: c in clients ==> c in activity
      ensures idle == IdleOf(clients, activity, now)
    {
      idle := [];
      var i := 0;
      while i < |clients|
        invariant 0 <= i <= |clients|
        invariant idle + IdleOf(clients[i..], activity, now) == IdleOf(clients, activity, now)
      {
        var c := clients[i];
        var out: seq<SockAddr> := if now - activity[c] > IdleTimeout then [c] else [];
        IdleStep(clients, i, activity, now, idle);
        idle := idle + out;
        i := i + 1;
      }
    }

    /** One turn of the eviction loop (server.cpp:389-404). */
    method EvictClient(c: SockAddr)
      requires Valid() && c in clients
      modifies this
      ensures Model() == EvictOne(old(Model()), c)
    {
      var e := routes[c];
      pads := pads[e := Hidden];
      var p := slotOf[e];
      slotsFree := slotsFree + [p];
      endpointsFree := endpointsFree + [e];
      slotOf := slotOf - {e};
      clients := Remove(clients, c);
      routes := routes - {c};
      activity := activity - {c};
    }

    /** The eviction loop of the sweep (server.cpp:387-407): each given
        client in turn; the flag is `has_removal_occurred`. */
    method EvictClients(cs: seq<SockAddr>) returns (removed: bool)
      requires Valid() && NoDup(cs) && forall c :: c in cs ==> c in clients
      modifies this
      ensures Valid()
      ensures Model() == EvictAll(old(Model()), cs)
      ensures removed <==> |cs| > 0
    {
      removed := false;
      ghost var s0 := Model();
      var i := 0;
      assert cs[..0] == [];
      while i < |cs|
        invariant 0 <= i <= |cs| && Inv(s0)
        invariant NoDup(cs[..i]) && forall c :: c in cs[..i] ==> c in s0.clients
        invariant Model() == EvictAll(s0, cs[..i])
        invariant removed <==> i > 0
      {
        EvictAllStep(s0, cs, i);
        EvictClient(cs[i]);
        removed := true;
        i := i + 1;
      }
      assert cs[..i] == cs;
    }

    /** One move of `compact_positions` (server.cpp:106-120): endpoint e
        takes the lowest free position, its pad moves there, and its old
        position joins the free stack, which is sorted again. */
    method MoveToLowest(e: Ix)
      requires CompactPre(Model()) && e in slotOf && slotOf[e] > Last(slotsFree)
      modifies this
      ensures Model() == MoveDown(old(Model()), e)
    {
      var low := Last(slotsFree);
      var p := slotOf[e];
      slotOf := slotOf[e := low];
      var pt := PositionPoint(low);
      pads := pads[e := pads[e].(x := pt.x, y := pt.y)];
      slotsFree := DropLast(slotsFree);
      slotsFree := slotsFree + [p];
      slotsFree := SortDesc(slotsFree);
    }

    /** The pass of `compact_positions` over the clients in set order
        (server.cpp:98-121). */
    method PassOverClients()
      requires CompactPre(Model()) && BelowFree(Model(), 0)
      modifies this
      ensures Model() == CompactFrom(old(Model()), 0)
    {
      ghost var s1 := Model();
      var low := Last(slotsFree);
      var i := 0;
      while i < |clients|
        invariant 0 <= i <= |clients| && CompactPre(s1) && BelowFree(s1, 0)
        invariant CompactPre(Model()) && BelowFree(Model(), i)
        invariant low == Last(slotsFree)
        invariant CompactFrom(Model(), i) == CompactFrom(s1, 0)
      {
        var e := routes[clients[i]];
        assert e in routes.Values;
        if slotOf[e] > low {
          PassMoves(Model(), i);
          MoveToLowest(e);
          low := Last(slotsFree);
        } else {
          PassStays(Model(), i);
        }
        i := i + 1;
      }
    }

    /** `compact_positions` (server.cpp:88-124): sort the free positions
        descending and, when the lowest of them is below the client count,
        make the pass. */
    method CompactPositions()
      requires Valid()
      modifies this
      ensures Valid()
      ensures Model() == Compact(old(Model()))
    {
      if |slotsFree| > 0 {
        slotsFree := SortDesc(slotsFree);
        assert Model() == SortFree(old(Model()));
        var low := Last(slotsFree);
        if low < |clients| {
          PassOverClients();
        } else {
          TopRange(slotsFree);
        }
      }
    }

    /** The idle sweep (server.cpp:374-413): when more than `SweepInterval`
        has passed, record the time, collect and evict the idle clients, and
        compact the positions after a removal. */
    method SweepIdle(now: int) returns (removed: bool)
      requires Valid()
      modifies this
      ensures Valid()
      ensures (Model(), removed) == Sweep(old(Model()), now)
    {
      removed := false;
      if now - lastSweep > SweepInterval {
        lastSweep := now;
        var idle := CollectIdle(now);
        SortedNoDup(idle);
        removed := EvictClients(idle);
        if removed {
          CompactPositions();
        }
      }
    }

    /** One iteration of the poll loop (server.cpp:294-415): the datagrams
        sent in order, and whether the client list is printed. */
    method HandleWake(w: Wake) returns (sent: seq<Send>, report: bool)
      requires Valid()
      modifies this
      ensures Valid()
      ensures Outcome(Model(), sent, report) == Step(old(Model()), w)
    {
      sent, report := [], false;
      var added := false;
      match w.client {
        case NoClientDatagram =>
        case ClientRecvFailed =>
          return;
        case ClientDatagram(from, d, forwarded) =>
          added := OnClientDatagram(from, w.now);
          if from in routes {
            if !forwarded {
              return;
            }
            sent := [Send(ToEndpoint(routes[from]), Received(d))];
          }
      }
      match w.pipeline {
        case NoPipelineDatagram =>
        case PipelineRecvFailed =>
          return;
        case PipelineDatagram(d, failed) =>
          var out := SendToClients(Received(d), failed);
          sent := sent + out;
      }
      var removed := SweepIdle(w.now);
      report := added || removed;
    }
  }

  /** One turn of the fan-out loop: the send to client i, if any, follows
      the sends so far. */
  lemma FanOutStep(cs: seq<SockAddr>, i: nat, data: seq<Byte>, failed: set<SockAddr>, sent: seq<Send>)
    requires i < |cs|
    ensures sent + FanOut(cs[i..], data, failed) ==
            (sent + (if cs[i] in failed then [] else [Send(ToClient(cs[i]), data)])) + FanOut(cs[i + 1..], data, failed)
  {
    assert cs[i..][1..] == cs[i + 1..];
  }

  /** One turn of the collect loop: client i, if idle, follows the idle
      clients so far. */
  lemma IdleStep(cs: seq<SockAddr>, i: nat, activity: map<SockAddr, int>, now: int, idle: seq<SockAddr>)
    requires i < |cs| && forall c :: c in cs ==> c in activity
    ensures idle + IdleOf(cs[i..], activity, now) ==
            (idle + (if now - activity[cs[i]] > IdleTimeout then [cs[i]] else [])) + IdleOf(cs[i + 1..], activity, now)
  {
    var out := if now - activity[cs[i]] > IdleTimeout then [cs[i]] else [];
    assert cs[i..][1..] == cs[i + 1..];
    assert IdleOf(cs[i..], activity, now) == out + IdleOf(cs[i + 1..], activity, now);
  }

  /** One more eviction extends the fold by the next client, which is
      still present before it. */
  lemma EvictAllStep(s: State, cs: seq<SockAddr>, i: nat)
    requires Inv(s) && NoDup(cs) && (forall c :: c in cs ==> c in s.clients) && i < |cs|
    ensures NoDup(cs[..i]) && NoDup(cs[..i + 1])
    ensures forall c :: c in cs[..i + 1] ==> c in s.clients
    ensures cs[i] in EvictAll(s, cs[..i]).clients
    ensures EvictAll(s, cs[..i + 1]) == EvictOne(EvictAll(s, cs[..i]), cs[i])
  {
    PrefixStep(cs, i);
  }

  /** The prefixes of a sequence without repeats have none either, and the
      next one ends in the next element. */
  lemma PrefixStep<T>(cs: seq<T>, i: nat)
    requires NoDup(cs) && i < |cs|
    ensures NoDup(cs[..i]) && NoDup(cs[..i + 1])
    ensures forall c :: c in cs[..i + 1] ==> c in cs
    ensures cs[i] !in cs[..i]
    ensures DropLast(cs[..i + 1]) == cs[..i] && Last(cs[..i + 1]) == cs[i]
  {
    assert forall j :: 0 <= j < i ==> cs[..i][j] == cs[j];
    assert cs[..i + 1] == cs[..i] + [cs[i]];
  }
}
