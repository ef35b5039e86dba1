/** The session and routing state of the relay server (server.cpp:27-124,
    166-168, 294-415) as a value, and one function per step of the event
    loop. The class `Relay.Server` performs the same steps in place and is
    proved to agree with these functions. */
module Session {
  import opened Addresses
  import opened Slots

  /** `BUFFER_SIZE`: the receive buffer; longer datagrams are truncated. */
  const BufferSize := 4096
  /** Microseconds between two idle sweeps must exceed this. */
  const SweepInterval := 8000000
  /** A client idle strictly longer than this (µs) is evicted by a sweep. */
  const IdleTimeout := 2000000

  newtype Byte = b: int | 0 <= b < 256

  /** The properties the server sets on a compositor sink pad: xpos, ypos,
      and alpha (1.0 shown, 0.0 hidden). */
  datatype Pad = Pad(x: int, y: int, visible: bool)

  /** A pad placed at grid position p and made visible. */
  function Shown(p: Ix): Pad
  {
    Pad(PositionPoint(p).x, PositionPoint(p).y, true)
  }

  /** A pad made transparent and moved to the origin. */
  const Hidden := Pad(0, 0, false)

  /** The global containers of the server. Internal endpoints (udpsrc
      addresses) are named by their pipeline index, which `udpsrc_ixs` fixes
      once at start-up. */
  datatype State = State(
    endpointsFree: seq<Ix>,      // udpsrc_sockaddrs_available, top at the back
    slotsFree: seq<Ix>,          // positions_available, top at the back
    clients: seq<SockAddr>,      // client_sockaddrs, in set order
    routes: map<SockAddr, Ix>,   // client_routes
    activity: map<SockAddr, int>, // client_activity
    slotOf: map<Ix, Ix>,         // udpsrc_positions
    pads: seq<Pad>,              // compositor pad i, for endpoint i
    lastSweep: int)              // client_activity_check

  function Last<T>(s: seq<T>): T
    requires |s| > 0
  {
    s[|s| - 1]
  }

  function DropLast<T>(s: seq<T>): seq<T>
    requires |s| > 0
  {
    s[..|s| - 1]
  }

  /** The session table: the ordered client set and the two maps keyed by it. */
  ghost predicate TableOk(clients: seq<SockAddr>, routes: map<SockAddr, Ix>, activity: map<SockAddr, int>)
  {
    && Sorted(clients)
    && (forall c :: c in routes <==> c in clients)
    && activity.Keys == routes.Keys
  }

  /** No two keys share a value. */
  ghost predicate Injective<K, V>(m: map<K, V>)
  {
    forall a, b :: a in m && b in m && a != b ==> m[a] != m[b]
  }

  /** An endpoint serves at most one client, the endpoints placed on the grid
      are exactly the routed ones, and no two share a position. */
  ghost predicate AssignmentOk(routes: map<SockAddr, Ix>, slotOf: map<Ix, Ix>)
  {
    && Injective(routes)
    && slotOf.Keys == routes.Values
    && Injective(slotOf)
  }

  /** Each endpoint is either on the free stack, once, or assigned. */
  ghost predicate EndpointPoolOk(free: seq<Ix>, slotOf: map<Ix, Ix>)
  {
    && NoDup(free)
    && (forall e: Ix :: e in free <==> e !in slotOf)
  }

  /** Each grid position is either on the free stack, once, or occupied. */
  ghost predicate SlotPoolOk(free: seq<Ix>, slotOf: map<Ix, Ix>)
  {
    && NoDup(free)
    && (forall p: Ix :: p in free <==> p !in slotOf.Values)
  }

  /** The compositor shows each assigned endpoint at its position; the pad
      of a free endpoint sits at the origin. */
  ghost predicate PadsOk(pads: seq<Pad>, slotOf: map<Ix, Ix>)
  {
    && |pads| == Capacity
    && (forall e :: e in slotOf ==> pads[e] == Shown(slotOf[e]))
    && (forall e: Ix :: e !in slotOf ==> pads[e].x == 0 && pads[e].y == 0)
  }

  /** The conservation invariant of the session table and the two pools. */
  ghost predicate Inv(s: State)
  {
    && TableOk(s.clients, s.routes, s.activity)
    && AssignmentOk(s.routes, s.slotOf)
    && EndpointPoolOk(s.endpointsFree, s.slotOf)
    && SlotPoolOk(s.slotsFree, s.slotOf)
    && |s.endpointsFree| + |s.clients| == Capacity
    && |s.slotsFree| + |s.clients| == Capacity
    && |s.pads| == Capacity
  }

  /** The invariant read as a partition: an endpoint is free exactly when
      no client is routed to it, a position is free exactly when no endpoint
      sits there, and the two stacks both hold 4 - n entries for n clients. */
  lemma PoolsPartition(s: State)
    requires Inv(s)
    ensures forall e: Ix :: e in s.endpointsFree <==> e !in s.routes.Values
    ensures forall p: Ix :: p in s.slotsFree <==> p !in s.slotOf.Values
    ensures |s.clients| <= Capacity
    ensures |s.endpointsFree| == |s.slotsFree| == Capacity - |s.clients|
  {
  }

  /** The compositor picture agrees with the assignment. */
  ghost predicate Displayed(s: State)
  {
    PadsOk(s.pads, s.slotOf)
  }

  /** The containers right after start-up: `init_udpsrcs` pushed endpoints
      0..3 in order, `init_positions_available` pushed 3, 2, 1, 0, and the
      pads carry the compositor's default placement (origin, opaque). */
  function Initial(now: int): (s: State)
    ensures Inv(s) && Displayed(s)
    ensures s.clients == [] && Last(s.endpointsFree) == 3 && Last(s.slotsFree) == 0
  {
    State([0, 1, 2, 3], InitialPositions(), [], map[], map[], map[],
          [Pad(0, 0, true), Pad(0, 0, true), Pad(0, 0, true), Pad(0, 0, true)], now)
  }

  /** Admission of the sender of a client datagram (server.cpp:310-335):
      when the address is unseen and an endpoint is free, it takes the top
      endpoint and the top position; the flag is `has_addition_occurred`. */
  function Admit(s: State, from: SockAddr): (r: (State, bool))
    requires Inv(s)
    ensures r.1 <==> from !in s.clients && |s.endpointsFree| > 0
    ensures !r.1 ==> r.0 == s
    ensures r.1 ==> && r.0.endpointsFree == DropLast(s.endpointsFree)
                    && r.0.slotsFree == DropLast(s.slotsFree)
                    && r.0.routes == s.routes[from := Last(s.endpointsFree)]
                    && r.0.slotOf == s.slotOf[Last(s.endpointsFree) := Last(s.slotsFree)]
                    && (forall c :: c in r.0.clients <==> c in s.clients || c == from)
                    && r.0.activity == s.activity && r.0.lastSweep == s.lastSweep
  {
    if from in s.clients || |s.endpointsFree| == 0 then (s, false)
    else
      var e, p := Last(s.endpointsFree), Last(s.slotsFree);
      (s.(clients := Insert(s.clients, from),
          routes := s.routes[from := e],
          slotOf := s.slotOf[e := p],
          pads := s.pads[e := Shown(p)],
          slotsFree := DropLast(s.slotsFree),
          endpointsFree := DropLast(s.endpointsFree)), true)
  }

  /** Activity refresh of a routed sender (server.cpp:338-340). */
  function Touch(s: State, from: SockAddr, now: int): (r: State)
    ensures r == s.(activity := r.activity)
    ensures from in s.routes ==> from in r.activity && r.activity[from] == now
    ensures from !in s.routes ==> r == s
    ensures forall c :: c != from ==> (c in r.activity <==> c in s.activity)
    ensures forall c :: c in s.activity && c != from ==> r.activity[c] == s.activity[c]
  {
    if from in s.routes then s.(activity := s.activity[from := now]) else s
  }

  /** The client half of a wake up to the forward (server.cpp:310-340). */
  function OnClient(s: State, from: SockAddr, now: int): (r: (State, bool))
    requires Inv(s)
    ensures Inv(r.0)
    ensures r.1 <==> from !in s.clients && |s.endpointsFree| > 0
    ensures forall c :: c in r.0.clients <==> c in s.clients || (c == from && r.1)
    ensures (from in r.0.routes) <==> (from in s.routes || |s.endpointsFree| > 0)
    ensures from in r.0.routes ==> r.0.activity[from] == now
    ensures forall c :: c in s.routes ==> c in r.0.routes && r.0.routes[c] == s.routes[c]
    ensures forall c :: c != from ==> (c in r.0.activity <==> c in s.activity)
    ensures forall c :: c in s.activity && c != from ==> r.0.activity[c] == s.activity[c]
    ensures r.0.lastSweep == s.lastSweep
  {
    var (a, added) := Admit(s, from);
    if added then
      AdmitKeepsInv(s, from, now);
      (Touch(a, from, now), added)
    else
      (Touch(a, from, now), added)
  }

  /** Admission followed by the activity refresh re-establishes Inv. */
  lemma AdmitKeepsInv(s: State, from: SockAddr, now: int)
    requires Inv(s) && from !in s.clients && |s.endpointsFree| > 0
    ensures Inv(Touch(Admit(s, from).0, from, now))
  {
    var e, p := Last(s.endpointsFree), Last(s.slotsFree);
    var r := State(DropLast(s.endpointsFree), DropLast(s.slotsFree), Insert(s.clients, from),
                   s.routes[from := e], s.activity[from := now], s.slotOf[e := p],
                   s.pads[e := Shown(p)], s.lastSweep);
    assert from !in s.routes;
    TablePush(s.clients, s.routes, s.activity, from, e, now);
    AssignPush(s.routes, s.slotOf, from, e, p, s.endpointsFree, s.slotsFree);
    assert s.endpointsFree == DropLast(s.endpointsFree) + [e];
    assert s.slotsFree == DropLast(s.slotsFree) + [p];
  }

  /** An admitted client's pad is shown at its new position. */
  lemma OnClientDisplays(s: State, from: SockAddr, now: int)
    requires Inv(s) && Displayed(s)
    ensures Displayed(OnClient(s, from, now).0)
  {
    if from !in s.clients && |s.endpointsFree| > 0 {
      PadsPush(s.pads, s.slotOf, Last(s.endpointsFree), Last(s.slotsFree));
    }
  }

  lemma TablePush(clients: seq<SockAddr>, routes: map<SockAddr, Ix>, activity: map<SockAddr, int>,
                  from: SockAddr, e: Ix, now: int)
    requires TableOk(clients, routes, activity) && from !in routes
    ensures TableOk(Insert(clients, from), routes[from := e], activity[from := now])
    ensures |Insert(clients, from)| == |clients| + 1
  {
  }

  lemma AssignPush(routes: map<SockAddr, Ix>, slotOf: map<Ix, Ix>, from: SockAddr, e: Ix, p: Ix,
                   ef: seq<Ix>, sf: seq<Ix>)
    requires AssignmentOk(routes, slotOf) && EndpointPoolOk(ef, slotOf) && SlotPoolOk(sf, slotOf)
    requires from !in routes && |ef| > 0 && |sf| > 0 && e == Last(ef) && p == Last(sf)
    ensures AssignmentOk(routes[from := e], slotOf[e := p])
    ensures EndpointPoolOk(DropLast(ef), slotOf[e := p])
    ensures SlotPoolOk(DropLast(sf), slotOf[e := p])
  {
    assert e !in slotOf;
    assert p !in slotOf.Values;
    MapPushValues(routes, from, e);
    MapPushValues(slotOf, e, p);
    assert ef == DropLast(ef) + [e];
    assert sf == DropLast(sf) + [p];
  }

  /** Adding a fresh key adds exactly its value to the values of a map. */
  lemma MapPushValues<K, V>(m: map<K, V>, k: K, v: V)
    requires k !in m
    ensures m[k := v].Values == m.Values + {v}
  {
    forall w | w in m.Values ensures w in m[k := v].Values {
      var j :| j in m && m[j] == w;
      assert m[k := v][j] == w;
    }
    assert m[k := v][k] == v;
  }

  lemma PadsPush(pads: seq<Pad>, slotOf: map<Ix, Ix>, e: Ix, p: Ix)
    requires PadsOk(pads, slotOf)
    ensures PadsOk(pads[e := Shown(p)], slotOf[e := p])
  {
  }

  /** `recvfrom` into the `BUFFER_SIZE` buffer: the first `bytes_read` bytes
      of the datagram are what the server sends on. */
  function Received(d: seq<Byte>): (r: seq<Byte>)
    ensures |r| <= BufferSize && |r| <= |d|
    ensures r == d[..|r|]
    ensures |d| <= BufferSize ==> r == d
    ensures |d| > BufferSize ==> |r| == BufferSize
  {
    if |d| <= BufferSize then d else d[..BufferSize]
  }

  /** Where a datagram leaves the server: an internal endpoint (by pipeline
      index) or a client address. */
  datatype Dest = ToEndpoint(endpoint: Ix) | ToClient(client: SockAddr)

  datatype Send = Send(to: Dest, payload: seq<Byte>)

  /** The successful sends of the fan-out loop (server.cpp:364-371): one per
      client, in set order, except to the clients whose send fails. */
  function FanOut(cs: seq<SockAddr>, data: seq<Byte>, failed: set<SockAddr>): (r: seq<Send>)
    ensures forall k :: 0 <= k < |r| ==> r[k].payload == data && r[k].to.ToClient?
    ensures forall c :: Send(ToClient(c), data) in r <==> c in cs && c !in failed
    ensures |r| <= |cs|
    ensures Sorted(cs) ==> forall i, j :: 0 <= i < j < |r| ==>
              r[i].to.ToClient? && r[j].to.ToClient? && Less(r[i].to.client, r[j].to.client)
  {
    if cs == [] then []
    else
      var rest := FanOut(cs[1..], data, failed);
      assert forall c :: c in cs <==> c == cs[0] || c in cs[1..];
      assert Sorted(cs) ==> forall k :: 0 <= k < |rest| ==> Less(cs[0], rest[k].to.client) by {
        if Sorted(cs) {
          forall k | 0 <= k < |rest| ensures Less(cs[0], rest[k].to.client) {
            assert rest[k] == Send(ToClient(rest[k].to.client), data);
            assert rest[k].to.client in cs[1..];
          }
        }
      }
      (if cs[0] in failed then [] else [Send(ToClient(cs[0]), data)]) + rest
  }

  /** The collect pass of the sweep (server.cpp:379-385): the clients, in
      set order, idle strictly longer than `IdleTimeout` at time now. */
  function IdleOf(cs: seq<SockAddr>, activity: map<SockAddr, int>, now: int): (r: seq<SockAddr>)
    requires forall c :: c in cs ==> c in activity
    ensures forall c :: c in r <==> c in cs && now - activity[c] > IdleTimeout
    ensures Sorted(cs) ==> Sorted(r)
  {
    if cs == [] then []
    else
      var rest := IdleOf(cs[1..], activity, now);
      assert forall c :: c in cs <==> c == cs[0] || c in cs[1..];
      assert Sorted(cs) ==> forall k :: 0 <= k < |rest| ==> Less(cs[0], rest[k]) by {
        if Sorted(cs) {
          forall k | 0 <= k < |rest| ensures Less(cs[0], rest[k]) {
            assert rest[k] in cs[1..];
          }
        }
      }
      (if now - activity[cs[0]] > IdleTimeout then [cs[0]] else []) + rest
  }

  /** One eviction of the sweep (server.cpp:389-404): hide the pad, push the
      position and the endpoint back, erase the client everywhere. */
  function EvictOne(s: State, c: SockAddr): (r: State)
    requires Inv(s) && c in s.clients
    ensures Inv(r)
    ensures forall x :: x in r.clients <==> x in s.clients && x != c
    ensures r.endpointsFree == s.endpointsFree + [s.routes[c]]
    ensures r.slotsFree == s.slotsFree + [s.slotOf[s.routes[c]]]
    ensures r.clients == Remove(s.clients, c)
    ensures r.routes == s.routes - {c} && r.activity == s.activity - {c}
    ensures r.slotOf == s.slotOf - {s.routes[c]}
    ensures r.pads == s.pads[s.routes[c] := Hidden]
    ensures r.lastSweep == s.lastSweep
  {
    var e := s.routes[c];
    var p := s.slotOf[e];
    var r := State(s.endpointsFree + [e], s.slotsFree + [p], Remove(s.clients, c),
                   s.routes - {c}, s.activity - {c}, s.slotOf - {e}, s.pads[e := Hidden], s.lastSweep);
    EvictKeepsInv(s, c);
    r
  }

  lemma EvictKeepsInv(s: State, c: SockAddr)
    requires Inv(s) && c in s.clients
    ensures
      var e := s.routes[c];
      Inv(State(s.endpointsFree + [e], s.slotsFree + [s.slotOf[e]], Remove(s.clients, c),
                s.routes - {c}, s.activity - {c}, s.slotOf - {e}, s.pads[e := Hidden], s.lastSweep))
  {
    var e := s.routes[c];
    assert e in s.slotOf;
    AssignPop(s.routes, s.slotOf, c, s.endpointsFree, s.slotsFree);
    TablePop(s.clients, s.routes, s.activity, c);
  }

  lemma TablePop(clients: seq<SockAddr>, routes: map<SockAddr, Ix>, activity: map<SockAddr, int>, c: SockAddr)
    requires TableOk(clients, routes, activity) && c in routes
    ensures TableOk(Remove(clients, c), routes - {c}, activity - {c})
    ensures |Remove(clients, c)| == |clients| - 1
  {
  }

  lemma PadsPop(pads: seq<Pad>, slotOf: map<Ix, Ix>, e: Ix)
    requires PadsOk(pads, slotOf)
    ensures PadsOk(pads[e := Hidden], slotOf - {e})
  {
  }

  lemma AssignPop(routes: map<SockAddr, Ix>, slotOf: map<Ix, Ix>, c: SockAddr, ef: seq<Ix>, sf: seq<Ix>)
    requires AssignmentOk(routes, slotOf) && EndpointPoolOk(ef, slotOf) && SlotPoolOk(sf, slotOf)
    requires c in routes
    ensures routes[c] in slotOf
    ensures AssignmentOk(routes - {c}, slotOf - {routes[c]})
    ensures EndpointPoolOk(ef + [routes[c]], slotOf - {routes[c]})
    ensures SlotPoolOk(sf + [slotOf[routes[c]]], slotOf - {routes[c]})
  {
    var e := routes[c];
    assert e in slotOf;
    var p := slotOf[e];
    assert p in slotOf.Values;
    assert e !in ef && p !in sf;
    assert (routes - {c}).Values == routes.Values - {e} by {
      forall v | v in routes.Values && v != e ensures v in (routes - {c}).Values {
        var j :| j in routes && routes[j] == v;
        assert (routes - {c})[j] == v;
      }
    }
    assert (slotOf - {e}).Values == slotOf.Values - {p} by {
      forall v | v in slotOf.Values && v != p ensures v in (slotOf - {e}).Values {
        var j :| j in slotOf && slotOf[j] == v;
        assert (slotOf - {e})[j] == v;
      }
    }
  }

  /** The endpoints of the clients cs, in order. */
  function Routed(routes: map<SockAddr, Ix>, cs: seq<SockAddr>): seq<Ix>
    requires forall c :: c in cs ==> c in routes
  {
    if cs == [] then [] else Routed(routes, DropLast(cs)) + [routes[Last(cs)]]
  }

  /** The positions of the clients cs, in order. */
  function Placed(routes: map<SockAddr, Ix>, slotOf: map<Ix, Ix>, cs: seq<SockAddr>): seq<Ix>
    requires forall c :: c in cs ==> c in routes && routes[c] in slotOf
  {
    if cs == [] then [] else Placed(routes, slotOf, DropLast(cs)) + [slotOf[routes[Last(cs)]]]
  }

  /** The eviction pass of the sweep (server.cpp:387-407) over the collected
      clients cs, one `EvictOne` per client in the order of cs. */
  function EvictAll(s: State, cs: seq<SockAddr>): (r: State)
    requires Inv(s) && NoDup(cs) && forall c :: c in cs ==> c in s.clients
    ensures Inv(r)
    ensures forall x :: x in r.clients <==> x in s.clients && x !in cs
    ensures r.lastSweep == s.lastSweep
    decreases |cs|
  {
    if cs == [] then s
    else
      var init, c := DropLast(cs), Last(cs);
      assert cs == init + [c];
      assert NoDup(init) && c !in init;
      EvictOne(EvictAll(s, init), c)
  }

  /** Surviving clients keep their endpoint, activity time, position and
      pad. */
  lemma {:induction false} EvictAllSurvivors(s: State, cs: seq<SockAddr>)
    requires Inv(s) && NoDup(cs) && forall c :: c in cs ==> c in s.clients
    ensures forall x :: x in EvictAll(s, cs).clients ==>
              var r := EvictAll(s, cs);
              (&& r.routes[x] == s.routes[x]
               && r.activity[x] == s.activity[x]
               && r.slotOf[r.routes[x]] == s.slotOf[s.routes[x]]
               && r.pads[r.routes[x]] == s.pads[s.routes[x]])
    decreases |cs|
  {
    if cs != [] {
      var init, c := DropLast(cs), Last(cs);
      assert cs == init + [c];
      assert NoDup(init) && c !in init;
      EvictAllSurvivors(s, init);
      var mid := EvictAll(s, init);
      assert c in mid.clients;
      var r := EvictOne(mid, c);
      assert EvictAll(s, cs) == r;
      forall x | x in r.clients
        ensures && r.routes[x] == s.routes[x]
                && r.activity[x] == s.activity[x]
                && r.slotOf[r.routes[x]] == s.slotOf[s.routes[x]]
                && r.pads[r.routes[x]] == s.pads[s.routes[x]]
      {
        assert x in mid.clients && x != c;
        assert mid.routes[x] != mid.routes[c];
      }
    }
  }

  /** Every evicted client's pad is hidden. */
  lemma {:induction false} EvictAllHides(s: State, cs: seq<SockAddr>)
    requires Inv(s) && NoDup(cs) && forall c :: c in cs ==> c in s.clients
    ensures forall c :: c in cs ==> EvictAll(s, cs).pads[s.routes[c]] == Hidden
    decreases |cs|
  {
    if cs != [] {
      var init, c := DropLast(cs), Last(cs);
      assert cs == init + [c];
      assert NoDup(init) && c !in init;
      EvictAllHides(s, init);
      EvictAllSurvivors(s, init);
      var mid := EvictAll(s, init);
      assert c in mid.clients;
      var r := EvictOne(mid, c);
      assert EvictAll(s, cs) == r;
      assert mid.routes[c] == s.routes[c];
      forall d | d in cs ensures r.pads[s.routes[d]] == Hidden {
        if d != c {
          assert d in init;
          assert s.routes[d] != s.routes[c];
        }
      }
    }
  }

  /** Each evicted endpoint is pushed back exactly once, in the order of
      eviction, and nothing else is pushed. */
  lemma {:induction false} EvictAllReleases(s: State, cs: seq<SockAddr>)
    requires Inv(s) && NoDup(cs) && forall c :: c in cs ==> c in s.clients
    ensures EvictAll(s, cs).endpointsFree == s.endpointsFree + Routed(s.routes, cs)
    decreases |cs|
  {
    if cs != [] {
      var init, c := DropLast(cs), Last(cs);
      assert cs == init + [c];
      assert NoDup(init) && c !in init;
      EvictAllReleases(s, init);
      var mid := EvictAll(s, init);
      assert EvictAll(s, cs) == EvictOne(mid, c);
      assert c in mid.clients;
      EvictAllSurvivors(s, init);
      assert Routed(s.routes, cs) == Routed(s.routes, init) + [s.routes[c]];
      PushStep(EvictAll(s, cs).endpointsFree, mid.endpointsFree, s.endpointsFree,
               Routed(s.routes, init), s.routes[c]);
    }
  }

  /** Each evicted position is pushed back exactly once, in the order of
      eviction, and nothing else is pushed. */
  lemma {:induction false} EvictAllReleasesSlots(s: State, cs: seq<SockAddr>)
    requires Inv(s) && NoDup(cs) && forall c :: c in cs ==> c in s.clients
    ensures forall c :: c in cs ==> c in s.routes && s.routes[c] in s.slotOf
    ensures EvictAll(s, cs).slotsFree == s.slotsFree + Placed(s.routes, s.slotOf, cs)
    decreases |cs|
  {
    if cs != [] {
      var init, c := DropLast(cs), Last(cs);
      assert cs == init + [c];
      assert NoDup(init) && c !in init;
      EvictAllReleasesSlots(s, init);
      var mid := EvictAll(s, init);
      assert EvictAll(s, cs) == EvictOne(mid, c);
      assert c in mid.clients;
      EvictAllSurvivors(s, init);
      assert Placed(s.routes, s.slotOf, cs) == Placed(s.routes, s.slotOf, init) + [s.slotOf[s.routes[c]]];
      PushStep(EvictAll(s, cs).slotsFree, mid.slotsFree, s.slotsFree,
               Placed(s.routes, s.slotOf, init), s.slotOf[s.routes[c]]);
    }
  }

  lemma PushStep<T>(r: seq<T>, m: seq<T>, a: seq<T>, pushed: seq<T>, x: T)
    requires r == m + [x] && m == a + pushed
    ensures r == a + (pushed + [x])
  {
  }

  /** The pads of the survivors are untouched and every evicted pad is
      hidden, so the compositor picture agrees with the assignment again. */
  lemma {:induction false} EvictAllDisplays(s: State, cs: seq<SockAddr>)
    requires Inv(s) && Displayed(s) && NoDup(cs) && forall c :: c in cs ==> c in s.clients
    ensures Displayed(EvictAll(s, cs))
    decreases |cs|
  {
    if cs != [] {
      var init, c := DropLast(cs), Last(cs);
      assert cs == init + [c];
      assert NoDup(init) && c !in init;
      EvictAllDisplays(s, init);
      var mid := EvictAll(s, init);
      assert EvictAll(s, cs) == EvictOne(mid, c);
      assert c in mid.clients;
      assert mid.routes[c] in mid.slotOf;
      PadsPop(mid.pads, mid.slotOf, mid.routes[c]);
    }
  }

  /** What the compaction pass relies on: every client is routed, no two
      clients are the same, the assignment is one-to-one, and the free
      positions form a non-empty strictly descending stack. */
  ghost predicate CompactPre(s: State)
  {
    && |s.pads| == Capacity
    && NoDup(s.clients)
    && (forall c :: c in s.clients ==> c in s.routes)
    && AssignmentOk(s.routes, s.slotOf)
    && SlotPoolOk(s.slotsFree, s.slotOf)
    && StrictlyDescending(s.slotsFree) && |s.slotsFree| > 0
  }

  /** One move of `compact_positions` (server.cpp:106-120): endpoint e leaves
      its position for the lowest free one, whose coordinates its pad takes,
      and the left position joins the re-sorted free stack. */
  function MoveDown(s: State, e: Ix): (r: State)
    requires CompactPre(s)
    requires e in s.slotOf && s.slotOf[e] > Last(s.slotsFree)
    ensures CompactPre(r) && |r.slotsFree| == |s.slotsFree|
    ensures Last(r.slotsFree) > Last(s.slotsFree)
    ensures r.slotOf == s.slotOf[e := Last(s.slotsFree)]
    ensures forall q :: q in r.slotsFree <==> q in DropLast(s.slotsFree) || q == s.slotOf[e]
    ensures r.pads == s.pads[e := s.pads[e].(x := PositionPoint(Last(s.slotsFree)).x,
                                             y := PositionPoint(Last(s.slotsFree)).y)]
    ensures r.clients == s.clients && r.routes == s.routes && r.activity == s.activity
    ensures r.endpointsFree == s.endpointsFree && r.lastSweep == s.lastSweep
  {
    var low, p := Last(s.slotsFree), s.slotOf[e];
    var pt := PositionPoint(low);
    MoveSlots(s.routes, s.slotOf, s.slotsFree, e);
    s.(slotOf := s.slotOf[e := low],
       pads := s.pads[e := s.pads[e].(x := pt.x, y := pt.y)],
       slotsFree := SortDesc(DropLast(s.slotsFree) + [p]))
  }

  lemma MoveSlots(routes: map<SockAddr, Ix>, slotOf: map<Ix, Ix>, sf: seq<Ix>, e: Ix)
    requires AssignmentOk(routes, slotOf) && SlotPoolOk(sf, slotOf)
    requires StrictlyDescending(sf) && |sf| > 0 && e in slotOf && slotOf[e] > Last(sf)
    ensures
      var sorted, slotOf' := SortDesc(DropLast(sf) + [slotOf[e]]), slotOf[e := Last(sf)];
      && AssignmentOk(routes, slotOf')
      && SlotPoolOk(sorted, slotOf')
      && StrictlyDescending(sorted) && |sorted| == |sf|
      && Last(sorted) > Last(sf)
      && forall q :: q in sorted <==> q in DropLast(sf) || q == slotOf[e]
  {
    var low, p := Last(sf), slotOf[e];
    var rest := DropLast(sf);
    var slotOf' := slotOf[e := low];
    assert low in sf;
    assert low !in slotOf.Values;
    assert p in slotOf.Values;
    MapReplaceValue(slotOf, e, low);
    assert slotOf'.Keys == slotOf.Keys;
    MoveFreeStack(sf, p);
    var sorted := SortDesc(rest + [p]);
    forall q: Ix ensures q in sorted <==> q !in slotOf'.Values {
      assert q in sorted <==> q in rest || q == p;
      assert q in sf <==> q in rest || q == low;
    }
  }

  /** Re-pointing key k to a value no key had replaces k's old value. */
  lemma MapReplaceValue<K, V>(m: map<K, V>, k: K, v: V)
    requires k in m && v !in m.Values
    requires Injective(m)
    ensures m[k := v].Values == m.Values - {m[k]} + {v}
    ensures Injective(m[k := v])
  {
    forall w | w in m.Values && w != m[k] ensures w in m[k := v].Values {
      var j :| j in m && m[j] == w;
      assert m[k := v][j] == w;
    }
    assert m[k := v][k] == v;
  }

  /** Popping the lowest free position and pushing a higher one, then
      sorting, gives a strictly descending stack whose back has grown. */
  lemma MoveFreeStack(sf: seq<Ix>, p: Ix)
    requires StrictlyDescending(sf) && |sf| > 0 && p > Last(sf) && p !in sf
    ensures var sorted := SortDesc(DropLast(sf) + [p]);
      && StrictlyDescending(sorted) && |sorted| == |sf| && Last(sorted) > Last(sf)
      && forall q :: q in sorted <==> q in DropLast(sf) || q == p
  {
    var low, rest := Last(sf), DropLast(sf);
    assert sf == rest + [low];
    assert forall q :: q in rest ==> q > low;
    assert NoDup(rest + [p]);
    var sorted := SortDesc(rest + [p]);
    assert |multiset(sorted)| == |multiset(rest + [p])|;
    assert Last(sorted) in rest + [p];
  }

  lemma PadsMove(pads: seq<Pad>, slotOf: map<Ix, Ix>, e: Ix, low: Ix)
    requires PadsOk(pads, slotOf) && e in slotOf
    ensures PadsOk(pads[e := pads[e].(x := PositionPoint(low).x, y := PositionPoint(low).y)],
                   slotOf[e := low])
  {
  }

  /** The pass of `compact_positions` over the clients from index i on, in
      set order (server.cpp:100-121). */
  function CompactFrom(s: State, i: nat): (r: State)
    requires CompactPre(s) && i <= |s.clients|
    requires BelowFree(s, i)
    ensures CompactPre(r) && |r.slotsFree| == |s.slotsFree|
    ensures BelowFree(r, |r.clients|)
    ensures r.clients == s.clients && r.routes == s.routes && r.activity == s.activity
    ensures r.endpointsFree == s.endpointsFree && r.lastSweep == s.lastSweep
    ensures r.slotOf.Keys == s.slotOf.Keys
    ensures Displayed(s) ==> Displayed(r)
    decreases |s.clients| - i
  {
    if i == |s.clients| then s
    else
      var e := s.routes[s.clients[i]];
      assert e in s.routes.Values;
      if s.slotOf[e] > Last(s.slotsFree) then
        MoveKeepsPrefix(s, i);
        assert Displayed(s) ==> Displayed(MoveDown(s, e)) by {
          if Displayed(s) {
            MoveDownDisplays(s, e);
          }
        }
        CompactFrom(MoveDown(s, e), i + 1)
      else
        assert s.slotOf[e] in s.slotOf.Values;
        assert Last(s.slotsFree) in s.slotsFree;
        CompactFrom(s, i + 1)
  }

  /** The clients before index i all sit below the lowest free position. */
  ghost predicate BelowFree(s: State, i: nat)
    requires CompactPre(s) && i <= |s.clients|
  {
    forall j :: 0 <= j < i ==> s.routes[s.clients[j]] in s.slotOf &&
                               s.slotOf[s.routes[s.clients[j]]] < Last(s.slotsFree)
  }

  /** A move of client i keeps the clients before it below the lowest free
      position and puts client i there too. */
  lemma MoveKeepsPrefix(s: State, i: nat)
    requires CompactPre(s) && i < |s.clients|
    requires s.routes[s.clients[i]] in s.slotOf
    requires s.slotOf[s.routes[s.clients[i]]] > Last(s.slotsFree)
    requires BelowFree(s, i)
    ensures BelowFree(MoveDown(s, s.routes[s.clients[i]]), i + 1)
  {
    var e := s.routes[s.clients[i]];
    var m := MoveDown(s, e);
    forall j | 0 <= j < i + 1
      ensures m.routes[m.clients[j]] in m.slotOf && m.slotOf[m.routes[m.clients[j]]] < Last(m.slotsFree)
    {
      if j < i {
        assert s.clients[j] != s.clients[i];
        assert s.routes[s.clients[j]] != e;
      }
    }
  }

  /** A client of the pass at or below the lowest free position stays
      where it is. */
  lemma PassStays(s: State, i: nat)
    requires CompactPre(s) && i < |s.clients| && BelowFree(s, i)
    requires s.routes[s.clients[i]] in s.slotOf
    requires s.slotOf[s.routes[s.clients[i]]] <= Last(s.slotsFree)
    ensures BelowFree(s, i + 1)
    ensures CompactFrom(s, i) == CompactFrom(s, i + 1)
  {
    assert s.slotOf[s.routes[s.clients[i]]] in s.slotOf.Values;
    assert Last(s.slotsFree) in s.slotsFree;
  }

  /** A client of the pass above the lowest free position moves down to it. */
  lemma PassMoves(s: State, i: nat)
    requires CompactPre(s) && i < |s.clients| && BelowFree(s, i)
    requires s.routes[s.clients[i]] in s.slotOf
    requires s.slotOf[s.routes[s.clients[i]]] > Last(s.slotsFree)
    ensures BelowFree(MoveDown(s, s.routes[s.clients[i]]), i + 1)
    ensures CompactFrom(s, i) == CompactFrom(MoveDown(s, s.routes[s.clients[i]]), i + 1)
  {
    MoveKeepsPrefix(s, i);
  }

  /** A move carries the pad along to the new position. */
  lemma MoveDownDisplays(s: State, e: Ix)
    requires CompactPre(s) && Displayed(s)
    requires e in s.slotOf && s.slotOf[e] > Last(s.slotsFree)
    ensures Displayed(MoveDown(s, e))
  {
    PadsMove(s.pads, s.slotOf, e, Last(s.slotsFree));
  }

  /** The first sort of `compact_positions` (server.cpp:94): the same free
      positions, now strictly descending, ready for the pass. */
  function SortFree(s: State): (s1: State)
    requires Inv(s) && |s.slotsFree| > 0
    ensures Inv(s1) && CompactPre(s1)
    ensures s1 == s.(slotsFree := s1.slotsFree)
    ensures forall p :: p in s1.slotsFree <==> p in s.slotsFree
  {
    var sorted := SortDesc(s.slotsFree);
    assert |multiset(sorted)| == |multiset(s.slotsFree)|;
    assert NoDup(s.clients) by {
      forall i, j | 0 <= i < j < |s.clients| ensures s.clients[i] != s.clients[j] {
        assert Less(s.clients[i], s.clients[j]);
      }
    }
    s.(slotsFree := sorted)
  }

  /** The pass of `compact_positions` from the first client on
      (server.cpp:98-121): it keeps the invariant and leaves the free stack
      as Capacity-1, ..., n for n clients. */
  function CompactPass(s: State): (r: State)
    requires Inv(s) && CompactPre(s)
    ensures Inv(r)
    ensures r.clients == s.clients && r.routes == s.routes && r.activity == s.activity
    ensures r.endpointsFree == s.endpointsFree && r.lastSweep == s.lastSweep
    ensures r.slotOf.Keys == s.slotOf.Keys
    ensures forall j :: 0 <= j < |r.slotsFree| ==> r.slotsFree[j] == Capacity - 1 - j
  {
    var r := CompactFrom(s, 0);
    CompactedFreeStack(r);
    r
  }

  /** `compact_positions` (server.cpp:88-124): after it, the free positions
      are exactly the highest ones, stacked in descending order. */
  function Compact(s: State): (r: State)
    requires Inv(s)
    ensures Inv(r)
    ensures r.clients == s.clients && r.routes == s.routes && r.activity == s.activity
    ensures r.endpointsFree == s.endpointsFree && r.lastSweep == s.lastSweep
    ensures r.slotOf.Keys == s.slotOf.Keys
    ensures forall j :: 0 <= j < |r.slotsFree| ==> r.slotsFree[j] == Capacity - 1 - j
  {
    if |s.slotsFree| == 0 then s
    else
      var s1 := SortFree(s);
      if Last(s1.slotsFree) < |s.clients| then CompactPass(s1)
      else
        TopRange(s1.slotsFree);
        s1
  }

  /** When every client sits below the lowest free position, the free
      stack is Capacity-1, ..., n for n clients. */
  lemma CompactedFreeStack(r: State)
    requires Inv(r) && CompactPre(r) && BelowFree(r, |r.clients|)
    ensures forall j :: 0 <= j < |r.slotsFree| ==> r.slotsFree[j] == Capacity - 1 - j
  {
    var m := Last(r.slotsFree);
    assert forall v: Ix :: m <= v ==> v in r.slotsFree;
    forall j | 0 <= j < |r.slotsFree| ensures m <= r.slotsFree[j] {
      if j < |r.slotsFree| - 1 {
        assert r.slotsFree[j] > r.slotsFree[|r.slotsFree| - 1];
      }
    }
    CoversRange(r.slotsFree, m);
  }

  /** With the free stack Capacity-1, ..., n, the n clients occupy exactly
      the positions 0 .. n-1. */
  lemma CompactIsDense(s: State)
    requires Inv(s)
    ensures forall p: Ix :: p in Compact(s).slotOf.Values <==> p < |s.clients|
  {
    var r := Compact(s);
    forall p: Ix ensures p in r.slotOf.Values <==> p < |r.clients| {
      if p >= |r.clients| {
        var j := Capacity - 1 - p;
        assert r.slotsFree[j] == p;
      }
    }
  }

  /** After compaction the next admission takes the lowest free position,
      which is the client count. */
  lemma CompactNextSlot(s: State)
    requires Inv(s) && |s.clients| < Capacity
    ensures |Compact(s).slotsFree| > 0
    ensures Last(Compact(s).slotsFree) == |s.clients|
    ensures forall p :: p in Compact(s).slotsFree ==> Last(Compact(s).slotsFree) <= p
  {
  }

  /** Compaction keeps the compositor picture in agreement with the
      assignment. */
  lemma CompactDisplays(s: State)
    requires Inv(s) && Displayed(s)
    ensures Displayed(Compact(s))
  {
    if |s.slotsFree| > 0 {
      var s1 := SortFree(s);
      if Last(s1.slotsFree) < |s.clients| {
      }
    }
  }

  /** A sorted sequence has no repeats. */
  lemma SortedNoDup(s: seq<SockAddr>)
    requires Sorted(s)
    ensures NoDup(s)
  {
    forall i, j | 0 <= i < j < |s| ensures s[i] != s[j] {
      assert Less(s[i], s[j]);
    }
  }

  /** Whether the sweep runs at time now (server.cpp:374). */
  predicate SweepDue(s: State, now: int)
  {
    now - s.lastSweep > SweepInterval
  }

  /** A client the sweep at time now evicts (server.cpp:381). */
  predicate Idle(s: State, c: SockAddr, now: int)
    requires c in s.activity
  {
    now - s.activity[c] > IdleTimeout
  }

  /** The sweep guard is strict: exactly `SweepInterval` after the last
      check it does not run yet, one microsecond later it does. */
  lemma SweepBoundary(s: State)
    ensures !SweepDue(s, s.lastSweep + SweepInterval)
    ensures SweepDue(s, s.lastSweep + SweepInterval + 1)
    ensures forall now :: SweepDue(s, now) <==> now >= s.lastSweep + SweepInterval + 1
  {
  }

  /** The idle test is strict: a client silent for exactly `IdleTimeout`
      stays, one microsecond more and it is evicted. */
  lemma IdleBoundary(s: State, c: SockAddr)
    requires c in s.activity
    ensures !Idle(s, c, s.activity[c] + IdleTimeout)
    ensures Idle(s, c, s.activity[c] + IdleTimeout + 1)
    ensures forall now :: Idle(s, c, now) <==> now >= s.activity[c] + IdleTimeout + 1
  {
  }

  /** Recording the sweep time leaves the invariant alone. */
  lemma StampKeepsInv(s: State, t: int)
    requires Inv(s)
    ensures Inv(s.(lastSweep := t))
  {
  }

  /** The idle sweep (server.cpp:374-413): when due, it records the time,
      evicts every client idle strictly longer than `IdleTimeout`, and
      compacts the positions when it evicted anyone; the flag is
      `has_removal_occurred`. */
  function Sweep(s: State, now: int): (r: (State, bool))
    requires Inv(s)
    ensures Inv(r.0)
    ensures !SweepDue(s, now) ==> r == (s, false)
    ensures SweepDue(s, now) ==> r.0.lastSweep == now
    ensures forall c :: c in r.0.clients <==>
              c in s.clients && !(SweepDue(s, now) && Idle(s, c, now))
    ensures r.1 <==> SweepDue(s, now) && exists c :: c in s.clients && Idle(s, c, now)
  {
    if !SweepDue(s, now) then (s, false)
    else
      var s1 := s.(lastSweep := now);
      var idle := IdleOf(s1.clients, s1.activity, now);
      SortedNoDup(idle);
      var s2 := EvictAll(s1, idle);
      if |idle| > 0 then
        assert idle[0] in idle;
        (Compact(s2), true)
      else
        (s2, false)
  }

  /** A due sweep that finds nobody idle only records the time: nothing
      is evicted and compaction does not run. */
  lemma SweepWithoutIdle(s: State, now: int)
    requires Inv(s) && SweepDue(s, now)
    requires forall c :: c in s.clients ==> !Idle(s, c, now)
    ensures Sweep(s, now) == (s.(lastSweep := now), false)
  {
    var idle := IdleOf(s.clients, s.activity, now);
    if idle != [] {
      assert idle[0] in idle;
    }
  }

  /** A due sweep pushes the endpoints of the idle clients back onto the
      free stack in set order, above the ones already free. */
  lemma SweepReleases(s: State, now: int)
    requires Inv(s) && SweepDue(s, now)
    ensures var idle := IdleOf(s.clients, s.activity, now);
      Sweep(s, now).0.endpointsFree == s.endpointsFree + Routed(s.routes, idle)
  {
    var s1 := s.(lastSweep := now);
    var idle := IdleOf(s1.clients, s1.activity, now);
    SortedNoDup(idle);
    EvictAllReleases(s1, idle);
  }

  /** The clients that stay keep their endpoint and activity time through a
      sweep. */
  lemma SweepSurvivors(s: State, now: int)
    requires Inv(s)
    ensures forall c :: c in Sweep(s, now).0.clients ==>
              (&& Sweep(s, now).0.routes[c] == s.routes[c]
               && Sweep(s, now).0.activity[c] == s.activity[c])
  {
    if SweepDue(s, now) {
      var s1 := s.(lastSweep := now);
      var idle := IdleOf(s1.clients, s1.activity, now);
      SortedNoDup(idle);
      EvictAllSurvivors(s1, idle);
    }
  }

  /** A sweep keeps the compositor picture in agreement with the
      assignment. */
  lemma SweepDisplays(s: State, now: int)
    requires Inv(s) && Displayed(s)
    ensures Displayed(Sweep(s, now).0)
  {
    if SweepDue(s, now) {
      var s1 := s.(lastSweep := now);
      var idle := IdleOf(s1.clients, s1.activity, now);
      SortedNoDup(idle);
      EvictAllDisplays(s1, idle);
      if |idle| > 0 {
        CompactDisplays(EvictAll(s1, idle));
      }
    }
  }

  /** After a sweep that evicted someone, the n remaining clients occupy
      exactly the grid positions 0 .. n-1. */
  lemma SweepPacks(s: State, now: int)
    requires Inv(s) && Sweep(s, now).1
    ensures forall p: Ix :: p in Sweep(s, now).0.slotOf.Values <==> p < |Sweep(s, now).0.clients|
  {
    var s1 := s.(lastSweep := now);
    var idle := IdleOf(s1.clients, s1.activity, now);
    SortedNoDup(idle);
    CompactIsDense(EvictAll(s1, idle));
  }

  /** The free-position stack holds exactly the highest positions,
      Capacity-1 down to the client count, so the occupied ones are the
      lowest. Start-up establishes it, admission pops from the back and
      every eviction is followed by compaction, so it holds throughout. */
  ghost predicate Packed(s: State)
  {
    forall j :: 0 <= j < |s.slotsFree| ==> s.slotsFree[j] == Capacity - 1 - j
  }

  /** The start-up stack 3, 2, 1, 0 is packed. */
  lemma InitialPacked(now: int)
    ensures Packed(Initial(now))
  {
    assert Initial(now).slotsFree == [3, 2, 1, 0];
  }

  /** In a packed state the n clients occupy exactly positions 0 .. n-1. */
  lemma PackedIsDense(s: State)
    requires Inv(s) && Packed(s)
    ensures forall p: Ix :: p in s.slotOf.Values <==> p < |s.clients|
  {
    forall p: Ix ensures p in s.slotOf.Values <==> p < |s.clients| {
      if p >= |s.clients| {
        assert s.slotsFree[Capacity - 1 - p] == p;
      }
    }
  }

  /** In a packed state an admitted sender takes position n, the smallest
      free one, for n clients already present. */
  lemma AdmitTakesLowest(s: State, from: SockAddr)
    requires Inv(s) && Packed(s) && from !in s.clients && |s.endpointsFree| > 0
    ensures Admit(s, from).0.slotOf[Last(s.endpointsFree)] == |s.clients|
    ensures forall p :: p in s.slotsFree ==> |s.clients| <= p
  {
  }

  /** The client half keeps the stack packed: admission only pops its
      back. */
  lemma OnClientKeepsPacked(s: State, from: SockAddr, now: int)
    requires Inv(s) && Packed(s)
    ensures Packed(OnClient(s, from, now).0)
  {
    var (a, added) := Admit(s, from);
    if added {
      assert forall j :: 0 <= j < |a.slotsFree| ==> a.slotsFree[j] == s.slotsFree[j];
    }
  }

  /** A sweep keeps the stack packed: with nobody idle it leaves the stack
      alone, otherwise compaction repacks it. */
  lemma SweepKeepsPacked(s: State, now: int)
    requires Inv(s) && Packed(s)
    ensures Packed(Sweep(s, now).0)
  {
    if SweepDue(s, now) && !Sweep(s, now).1 {
      SweepWithoutIdle(s, now);
    }
  }
}
