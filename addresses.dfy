/** Address identity of a client: an IPv4 address and a UDP port, the two
    fields of a `sockaddr_in` that the server compares (server.cpp:17-25).
    The values are the raw stored words (network byte order), compared as
    unsigned integers exactly as the comparator does. */
module Addresses {

  type U32 = x: int | 0 <= x < 0x1_0000_0000
  type U16 = x: int | 0 <= x < 0x1_0000

  datatype SockAddr = SockAddr(addr: U32, port: U16)

  /** The strict ordering of `sockaddr_in_cmp`: by address first, then by port. */
  predicate Less(a: SockAddr, b: SockAddr)
  {
    if a.addr != b.addr then a.addr < b.addr else a.port < b.port
  }

  /** Less is a strict total order, and two addresses are the same key of the
      ordered containers exactly when both fields agree. */
  lemma LessIsStrictTotalOrder(a: SockAddr, b: SockAddr, c: SockAddr)
    ensures !Less(a, a)
    ensures Less(a, b) ==> !Less(b, a)
    ensures Less(a, b) && Less(b, c) ==> Less(a, c)
    ensures a != b ==> Less(a, b) || Less(b, a)
  {
  }

  lemma SameKeyIff(a: SockAddr, b: SockAddr)
    ensures (!Less(a, b) && !Less(b, a)) <==> (a.addr == b.addr && a.port == b.port)
  {
  }

  /** A `std::set<sockaddr_in, sockaddr_in_cmp>` as the sequence of its
      elements in iteration order. */
  ghost predicate Sorted(s: seq<SockAddr>)
  {
    forall i, j :: 0 <= i < j < |s| ==> Less(s[i], s[j])
  }

  /** `insert` into the ordered set. */
  function Insert(s: seq<SockAddr>, a: SockAddr): (r: seq<SockAddr>)
    requires Sorted(s)
    ensures Sorted(r)
    ensures forall x :: x in r <==> x in s || x == a
    ensures a in s ==> r == s
    ensures a !in s ==> |r| == |s| + 1
  {
    if s == [] then [a]
    else if a == s[0] then s
    else if Less(a, s[0]) then
      SortedCons(a, s);
      [a] + s
    else
      var rest := Insert(s[1..], a);
      assert s == [s[0]] + s[1..];
      assert forall k :: 0 <= k < |rest| ==> Less(s[0], rest[k]) by {
        forall k | 0 <= k < |rest| ensures Less(s[0], rest[k]) {
          assert rest[k] in s[1..] || rest[k] == a;
        }
      }
      SortedCons(s[0], rest);
      [s[0]] + rest
  }

  /** `erase` from the ordered set. */
  function Remove(s: seq<SockAddr>, a: SockAddr): (r: seq<SockAddr>)
    requires Sorted(s)
    ensures Sorted(r)
    ensures forall x :: x in r <==> x in s && x != a
    ensures a in s ==> |r| == |s| - 1
    ensures a !in s ==> r == s
  {
    if s == [] then []
    else if a == s[0] then s[1..]
    else
      var rest := Remove(s[1..], a);
      assert s == [s[0]] + s[1..];
      assert forall k :: 0 <= k < |rest| ==> Less(s[0], rest[k]) by {
        forall k | 0 <= k < |rest| ensures Less(s[0], rest[k]) {
          assert rest[k] in s[1..];
        }
      }
      SortedCons(s[0], rest);
      [s[0]] + rest
  }

  /** A sorted sequence stays sorted under a new least element. */
  lemma SortedCons(x: SockAddr, s: seq<SockAddr>)
    requires Sorted(s) && forall k :: 0 <= k < |s| ==> Less(x, s[k])
    ensures Sorted([x] + s)
  {
    var r := [x] + s;
    forall i, j | 0 <= i < j < |r| ensures Less(r[i], r[j]) {
      if i > 0 {
        assert r[i] == s[i - 1] && r[j] == s[j - 1];
      }
    }
  }
}
