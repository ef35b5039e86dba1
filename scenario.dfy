/** A worked sweep. Four clients A < B < C < D joined in that order and so
    hold endpoints 3, 2, 1, 0 at positions 0, 1, 2, 3. B falls silent; the
    sweep evicts it and compacts the grid in set order, so C moves from
    position 2 to 1 and D from 3 to 2; a fifth client E then takes the freed
    endpoint 2 and the freed top position 3. */
module Scenario {
  import opened Addresses
  import opened Slots
  import opened Session

  const A := SockAddr(1, 5000)
  const B := SockAddr(2, 5000)
  const C := SockAddr(3, 5000)
  const D := SockAddr(4, 5000)
  const E := SockAddr(5, 5000)

  /** The grid once A, B, C and D have joined, whatever their activity
      times. */
  ghost predicate AllFour(s: State)
  {
    && Inv(s) && s.clients == [A, B, C, D]
    && s.routes[A] == 3 && s.routes[B] == 2 && s.routes[C] == 1 && s.routes[D] == 0
    && s.slotOf[3] == 0 && s.slotOf[2] == 1 && s.slotOf[1] == 2 && s.slotOf[0] == 3
  }

  /** The grid right after B's eviction, before compaction. */
  ghost predicate AfterB(s: State)
  {
    && s.clients == [A, C, D]
    && A in s.routes && C in s.routes && D in s.routes
    && s.routes[A] == 3 && s.routes[C] == 1 && s.routes[D] == 0
    && 3 in s.slotOf && 1 in s.slotOf && 0 in s.slotOf
    && s.slotOf[3] == 0 && s.slotOf[1] == 2 && s.slotOf[0] == 3
    && s.slotsFree == [1]
  }

  /** A new address above every present one takes the top endpoint and the
      top position and goes to the end of the set. */
  lemma Join(s: State, from: SockAddr, now: int)
    requires Inv(s) && from !in s.clients && |s.endpointsFree| > 0
    requires forall k :: 0 <= k < |s.clients| ==> Less(s.clients[k], from)
    ensures var r := OnClient(s, from, now).0;
      && r.clients == s.clients + [from]
      && r.routes == s.routes[from := Last(s.endpointsFree)]
      && r.slotOf == s.slotOf[Last(s.endpointsFree) := Last(s.slotsFree)]
      && r.endpointsFree == DropLast(s.endpointsFree)
      && r.slotsFree == DropLast(s.slotsFree)
  {
    InsertAtEnd(s.clients, from);
  }

  lemma {:induction false} InsertAtEnd(s: seq<SockAddr>, a: SockAddr)
    requires Sorted(s) && forall k :: 0 <= k < |s| ==> Less(s[k], a)
    ensures Insert(s, a) == s + [a]
  {
    if s != [] {
      assert !Less(a, s[0]) && a != s[0];
      InsertAtEnd(s[1..], a);
      assert s == [s[0]] + s[1..];
    }
  }

  /** Evicting B, the second in set order, frees endpoint 2 and position 1. */
  lemma EvictB(s: State)
    requires AllFour(s)
    ensures AfterB(EvictOne(s, B))
    ensures EvictOne(s, B).endpointsFree == [2]
  {
    var r := EvictOne(s, B);
    assert s.endpointsFree == [] && s.slotsFree == [];
    assert r.slotsFree == [1];
    RemoveB();
    assert r.routes == s.routes - {B} && r.slotOf == s.slotOf - {2};
    assert A in s.routes && C in s.routes && D in s.routes;
    assert 3 in s.slotOf && 1 in s.slotOf && 0 in s.slotOf;
  }

  lemma RemoveB()
    ensures Sorted([A, B, C, D]) && Remove([A, B, C, D], B) == [A, C, D]
  {
    var s := [A, B, C, D];
    var tail := s[1..];
    assert tail == [B, C, D] && tail[1..] == [C, D];
    assert Remove(tail, B) == [C, D];
    assert Remove(s, B) == [A] + Remove(tail, B);
  }

  /** C, the second client in set order, sits on endpoint 1 at position 2
      above the free position 1 and moves down to it. */
  lemma MoveC(s: State)
    requires CompactPre(s) && s.slotsFree == [1] && 1 in s.slotOf && s.slotOf[1] == 2
    ensures MoveDown(s, 1).slotOf == s.slotOf[1 := 1]
    ensures MoveDown(s, 1).slotsFree == [2]
  {
    assert DropLast(s.slotsFree) + [s.slotOf[1]] == [2];
    assert SortDesc([2]) == [2];
  }

  /** D, the third, sits on endpoint 0 at position 3 above the now free 2
      and moves down to it. */
  lemma MoveD(s: State)
    requires CompactPre(s) && s.slotsFree == [2] && 0 in s.slotOf && s.slotOf[0] == 3
    ensures MoveDown(s, 0).slotOf == s.slotOf[0 := 2]
    ensures MoveDown(s, 0).slotsFree == [3]
  {
    assert DropLast(s.slotsFree) + [s.slotOf[0]] == [3];
    assert SortDesc([3]) == [3];
  }

  /** Compaction after B's eviction: A stays at 0, C's endpoint 1 moves to
      position 1, D's endpoint 0 to position 2, and position 3 is free. */
  lemma CompactAfterB(s: State)
    requires Inv(s) && AfterB(s)
    ensures Compact(s).slotOf == s.slotOf[1 := 1][0 := 2]
    ensures Compact(s).slotsFree == [3]
  {
    assert SortDesc([1]) == [1];
    assert SortFree(s) == s;
    assert s.clients[0] == A && s.clients[1] == C && s.clients[2] == D;
    PassStays(s, 0);
    MoveC(s);
    PassMoves(s, 1);
    var m1 := MoveDown(s, 1);
    MoveD(m1);
    PassMoves(m1, 2);
  }

  /** The sweep when B alone has been silent too long evicts B alone,
      compacts, and reports the removal. */
  lemma SweepEvictsB(s: State, now: int)
    requires AllFour(s) && SweepDue(s, now)
    requires Idle(s, B, now) && !Idle(s, A, now) && !Idle(s, C, now) && !Idle(s, D, now)
    ensures Sweep(s, now) == (Compact(EvictOne(s.(lastSweep := now), B)), true)
  {
    IdleIsB(s.activity, now);
    var s1 := s.(lastSweep := now);
    assert EvictAll(s1, [B]) == EvictOne(s1, B) by {
      assert DropLast([B]) == [] && Last([B]) == B;
    }
  }

  /** B is the only client silent for longer than the timeout. */
  lemma IdleIsB(activity: map<SockAddr, int>, now: int)
    requires A in activity && B in activity && C in activity && D in activity
    requires now - activity[B] > IdleTimeout && now - activity[A] <= IdleTimeout
    requires now - activity[C] <= IdleTimeout && now - activity[D] <= IdleTimeout
    ensures IdleOf([A, B, C, D], activity, now) == [B]
  {
    var cs := [A, B, C, D];
    assert cs[1..] == [B, C, D] && cs[1..][1..] == [C, D];
    NoneIdle(activity, now);
    assert IdleOf(cs[1..], activity, now) == [B] + IdleOf([C, D], activity, now);
    assert IdleOf(cs, activity, now) == [] + IdleOf(cs[1..], activity, now);
  }

  /** Neither C nor D is idle. */
  lemma NoneIdle(activity: map<SockAddr, int>, now: int)
    requires C in activity && D in activity
    requires now - activity[C] <= IdleTimeout && now - activity[D] <= IdleTimeout
    ensures IdleOf([C, D], activity, now) == []
  {
    assert [C, D][1..] == [D] && [D][1..] == [];
    assert IdleOf([D], activity, now) == [] + IdleOf([], activity, now);
    assert IdleOf([C, D], activity, now) == [] + IdleOf([D], activity, now);
  }

  /** E, above every present address, then takes endpoint 2 at position 3. */
  lemma EJoins(s: State, now: int)
    requires Inv(s) && s.clients == [A, C, D] && s.endpointsFree == [2] && s.slotsFree == [3]
    ensures OnClient(s, E, now).0.routes[E] == 2
    ensures OnClient(s, E, now).0.slotOf[2] == 3
  {
    assert forall k :: 0 <= k < |s.clients| ==> Less(s.clients[k], E);
    Join(s, E, now);
  }

  /** The grid after B's eviction and the compaction that follows it. */
  ghost predicate Repacked(r: State)
  {
    && Inv(r) && r.clients == [A, C, D]
    && r.endpointsFree == [2] && r.slotsFree == [3]
    && A in r.routes && C in r.routes && D in r.routes
    && r.routes[A] == 3 && r.routes[C] == 1 && r.routes[D] == 0
    && 3 in r.slotOf && 1 in r.slotOf && 0 in r.slotOf
    && r.slotOf[3] == 0 && r.slotOf[1] == 1 && r.slotOf[0] == 2
  }

  /** Evicting B and compacting gives the repacked grid. */
  lemma EvictThenCompact(s: State)
    requires AllFour(s)
    ensures Repacked(Compact(EvictOne(s, B)))
  {
    EvictB(s);
    var e := EvictOne(s, B);
    CompactAfterB(e);
    RepackedFrom(e, Compact(e));
  }

  lemma RepackedFrom(e: State, c: State)
    requires AfterB(e) && e.endpointsFree == [2]
    requires Inv(c) && c.clients == e.clients && c.routes == e.routes
    requires c.endpointsFree == e.endpointsFree && c.slotsFree == [3]
    requires c.slotOf == e.slotOf[1 := 1][0 := 2]
    ensures Repacked(c)
  {
  }

  /** The sweep that finds only B idle reports and leaves the repacked
      grid. */
  lemma SweepRepacks(s: State, now: int)
    requires AllFour(s) && SweepDue(s, now)
    requires Idle(s, B, now) && !Idle(s, A, now) && !Idle(s, C, now) && !Idle(s, D, now)
    ensures Sweep(s, now).1 && Repacked(Sweep(s, now).0)
  {
    var s1 := s.(lastSweep := now);
    StampKeepsAllFour(s, now);
    EvictThenCompact(s1);
    SweepEvictsB(s, now);
    Substitute(Sweep(s, now), Compact(EvictOne(s1, B)));
  }

  /** Recording the sweep time keeps the four-client grid. */
  lemma StampKeepsAllFour(s: State, now: int)
    requires AllFour(s)
    ensures AllFour(s.(lastSweep := now))
  {
    StampKeepsInv(s, now);
  }

  lemma Substitute(x: (State, bool), c: State)
    requires x == (c, true) && Repacked(c)
    ensures x.1 && Repacked(x.0)
  {
  }

  /** From the repacked grid E takes endpoint 2 at position 3. */
  lemma JoinRepacked(r: State, later: int)
    requires Repacked(r)
    ensures OnClient(r, E, later).0.routes[E] == 2
    ensures OnClient(r, E, later).0.slotOf[2] == 3
  {
    EJoins(r, later);
  }

  /** The whole run: the sweep that finds only B idle leaves A at 0, C at 1
      and D at 2 with endpoint 2 and position 3 free, and E, joining
      afterwards, takes endpoint 2 at position 3. */
  lemma WorkedRun(s: State, now: int, later: int)
    requires AllFour(s) && SweepDue(s, now)
    requires Idle(s, B, now) && !Idle(s, A, now) && !Idle(s, C, now) && !Idle(s, D, now)
    ensures Sweep(s, now).1 && Repacked(Sweep(s, now).0)
    ensures OnClient(Sweep(s, now).0, E, later).0.routes[E] == 2
    ensures OnClient(Sweep(s, now).0, E, later).0.slotOf[2] == 3
  {
    SweepRepacks(s, now);
    JoinRepacked(Sweep(s, now).0, later);
  }
}
