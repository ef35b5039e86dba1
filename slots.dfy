/** The four grid positions of the composited output and the free-position
    stack `positions_available` (server.cpp:63-83), with the descending sort
    that `compact_positions` applies to that stack (server.cpp:94, 118). */
module Slots {

  /** Number of internal endpoints and of grid positions. */
  const Capacity := 4

  /** An index 0..3: of an internal endpoint or of a grid position. */
  type Ix = i: int | 0 <= i < Capacity

  datatype Point = Point(x: int, y: int)

  /** `position_points`: the fixed (xpos, ypos) of each grid position. */
  function PositionPoint(p: Ix): (pt: Point)
    ensures pt.x == (if p % 2 == 0 then 0 else 320)
    ensures pt.y == (if p < 2 then 0 else 240)
  {
    [Point(0, 0), Point(320, 0), Point(0, 240), Point(320, 240)][p]
  }

  /** Distinct grid positions have distinct coordinates. */
  lemma PositionPointInjective(p: Ix, q: Ix)
    ensures PositionPoint(p) == PositionPoint(q) ==> p == q
  {
    var a, b := PositionPoint(p), PositionPoint(q);
  }

  /** `init_positions_available`: 3, 2, 1, 0 pushed in that order, so the
      back of the stack (the next position handed out) is 0. */
  function InitialPositions(): (s: seq<Ix>)
    ensures StrictlyDescending(s) && |s| == Capacity
    ensures forall p: Ix :: p in s
    ensures s[|s| - 1] == 0
  {
    [3, 2, 1, 0]
  }

  ghost predicate NoDup<T>(s: seq<T>)
  {
    forall i, j :: 0 <= i < j < |s| ==> s[i] != s[j]
  }

  ghost predicate Descending(s: seq<Ix>)
  {
    forall i, j :: 0 <= i < j < |s| ==> s[i] >= s[j]
  }

  ghost predicate StrictlyDescending(s: seq<Ix>)
  {
    forall i, j :: 0 <= i < j < |s| ==> s[i] > s[j]
  }

  /** Insertion of one value into a descending sequence. */
  function InsertDesc(x: Ix, r: seq<Ix>): (t: seq<Ix>)
    requires Descending(r)
    ensures Descending(t)
    ensures |t| == |r| + 1
    ensures forall y :: y in t <==> y == x || y in r
  {
    if r == [] then [x]
    else if x >= r[0] then [x] + r
    else
      var rest := InsertDesc(x, r[1..]);
      assert r == [r[0]] + r[1..];
      assert forall k :: 0 <= k < |rest| ==> rest[k] == x || rest[k] in r[1..];
      [r[0]] + rest
  }

  /** `sort(..., std::greater<size_t>())`: the same values in descending
      order; on a stack without repeats the order is strict. */
  function SortDesc(s: seq<Ix>): (r: seq<Ix>)
    ensures Descending(r)
    ensures multiset(r) == multiset(s)
    ensures forall y :: y in r <==> y in s
    ensures NoDup(s) ==> StrictlyDescending(r)
  {
    if s == [] then []
    else
      var rest := SortDesc(s[1..]);
      assert s == [s[0]] + s[1..];
      assert NoDup(s) ==> s[0] !in s[1..];
      InsertDescCounts(s[0], rest);
      assert NoDup(s) ==> StrictlyDescending(InsertDesc(s[0], rest)) by {
        if NoDup(s) {
          assert NoDup(s[1..]);
          InsertDescStrict(s[0], rest);
        }
      }
      InsertDesc(s[0], rest)
  }

  /** Insertion adds exactly one occurrence of the inserted value. */
  lemma {:induction false} InsertDescCounts(x: Ix, r: seq<Ix>)
    requires Descending(r)
    ensures multiset(InsertDesc(x, r)) == multiset(r) + multiset{x}
  {
    if r == [] {
      assert InsertDesc(x, r) == [x];
    } else if x >= r[0] {
      assert InsertDesc(x, r) == [x] + r;
    } else {
      var tail := r[1..];
      assert r == [r[0]] + tail;
      InsertDescCounts(x, tail);
      assert InsertDesc(x, r) == [r[0]] + InsertDesc(x, tail);
      assert multiset(r) == multiset{r[0]} + multiset(tail);
    }
  }

  /** Inserting a new value into a strictly descending sequence keeps it
      strictly descending. */
  lemma {:induction false} InsertDescStrict(x: Ix, r: seq<Ix>)
    requires StrictlyDescending(r) && x !in r
    ensures StrictlyDescending(InsertDesc(x, r))
  {
    if r != [] && x < r[0] {
      var tail := r[1..];
      assert r == [r[0]] + tail;
      InsertDescStrict(x, tail);
      var rest := InsertDesc(x, tail);
      assert InsertDesc(x, r) == [r[0]] + rest;
      forall k | 0 <= k < |rest| ensures r[0] > rest[k] {
        assert rest[k] in rest;
        if rest[k] != x {
          var j :| 0 <= j < |tail| && tail[j] == rest[k];
          assert r[j + 1] == rest[k];
        }
      }
    }
  }

  /** In a strictly descending sequence of integers, entries j - i apart
      differ by at least j - i. */
  lemma {:induction false} DescGap(s: seq<Ix>, i: int, j: int)
    requires StrictlyDescending(s)
    requires 0 <= i <= j < |s|
    ensures s[i] >= s[j] + (j - i)
    decreases j - i
  {
    if i < j {
      DescGap(s, i + 1, j);
    }
  }

  /** A strictly descending stack of n free positions whose back is at
      least Capacity - n is exactly Capacity-1, Capacity-2, ..., Capacity-n. */
  lemma TopRange(s: seq<Ix>)
    requires StrictlyDescending(s)
    requires |s| > 0 ==> s[|s| - 1] >= Capacity - |s|
    ensures forall j :: 0 <= j < |s| ==> s[j] == Capacity - 1 - j
  {
    forall j | 0 <= j < |s| ensures s[j] == Capacity - 1 - j {
      DescGap(s, 0, j);
      DescGap(s, j, |s| - 1);
    }
  }

  /** A strictly descending stack that holds every position from m up is
      exactly Capacity-1, ..., m. */
  lemma CoversRange(s: seq<Ix>, m: int)
    requires StrictlyDescending(s)
    requires 0 <= m <= Capacity
    requires forall j :: 0 <= j < |s| ==> m <= s[j]
    requires forall v: Ix :: m <= v ==> v in s
    ensures |s| == Capacity - m
    ensures forall j :: 0 <= j < |s| ==> s[j] == Capacity - 1 - j
  {
    forall j | 0 <= j < |s| ensures s[j] == Capacity - 1 - j {
      CoversAt(s, m, j);
    }
    if |s| > 0 {
      assert s[|s| - 1] == Capacity - |s|;
    }
    assert m <= Capacity - 1 - |s| ==> Capacity - 1 - |s| in s;
  }

  lemma {:induction false} CoversAt(s: seq<Ix>, m: int, j: int)
    requires StrictlyDescending(s)
    requires 0 <= m <= Capacity
    requires forall k :: 0 <= k < |s| ==> m <= s[k]
    requires forall v: Ix :: m <= v ==> v in s
    requires 0 <= j < |s|
    ensures s[j] == Capacity - 1 - j
  {
    if j > 0 {
      CoversAt(s, m, j - 1);
    }
    assert m <= s[j] <= Capacity - 1 - j;
    var v: Ix := Capacity - 1 - j;
    assert v in s;
    var t :| 0 <= t < |s| && s[t] == v;
    if t < j {
      DescGap(s, t, j);
    }
  }
}
