/**
 * How many remote calls a lookup costs once the finger tables are right, and that all
 * lookups agree: section 4.3 of Stoica et al., "Chord" (SIGCOMM 2001), for the code of
 * vnode.go.
 */
module Hops {
  import opened Wrappers
  import opened RingMath
  import opened Nodes
  import opened Lookup
  import CP = ClosestPreceding

  /** Entry i of a right finger table of v: the first node at or after v + 2^i. */
  function TrueFinger(m: int, ring: seq<Id>, v: Id, i: nat): Id
    requires |ring| > 0
  {
    ring[OwnerIndex(ring, Offset(m, v, i))]
  }

  ghost predicate RightFingers(m: int, bits: nat, ring: seq<Id>, v: Id, finger: seq<Option<Id>>)
    requires |ring| > 0
  {
    && m == Pow2(bits)
    && |finger| == bits
    && (forall i :: 0 <= i < bits ==> finger[i] == Some(TrueFinger(m, ring, v, i)))
  }

  ghost predicate AllFingersRight(m: int, bits: nat, ring: seq<Id>, net: Net)
    requires |ring| > 0
  {
    forall w {:trigger RightFingers(m, bits, ring, w, net[w].finger)} :: w in net ==> RightFingers(m, bits, ring, w, net[w].finger)
  }

  /** An ideal ring is never one on which a node succeeds itself. */
  lemma IdealHasNoSelfLoops(m: int, ring: seq<Id>, s: nat, net: Net)
    requires IdealLists(m, ring, s, net)
    ensures NoSelfLoops(m, s, net)
  {
    forall v | v in net ensures Succ(net, v) != v {
      var i := IndexOf(ring, v);
      assert FollowsRing(ring, i, net[v].successors);
      assert Succ(net, v) == At(ring, i + 1 + 0);
    }
  }

  /** With every peer reachable, lookups of one key from any two nodes succeed and name the same owner. */
  lemma LookupsAgree(m: int, ring: seq<Id>, s: nat, net: Net, v: Id, w: Id, n: nat, key: Id)
    requires IdealLists(m, ring, s, net) && v in net && w in net && 1 <= n <= s && OnCircle(m, key)
    requires key != v && key != w
    ensures var a, b := Find(m, s, net, net.Keys, v, n, key).reply, Find(m, s, net, net.Keys, w, n, key).reply;
            a.Ok? && b.Ok? && |a.value| == |b.value| == n
            && a.value[0] == b.value[0] == Some(ring[OwnerIndex(ring, key)])
  {
    IdealHasNoSelfLoops(m, ring, s, net);
    var u := LookupEndsAtArc(m, s, net, v, n, key);
    var u' := LookupEndsAtArc(m, s, net, w, n, key);
    LookupRefinesScan(m, ring, s, net, net.Keys, v, n, key);
    LookupRefinesScan(m, ring, s, net, net.Keys, w, n, key);
  }

  lemma OffsetDistances(m: int, v: Id, i: nat, x: Id)
    requires OnCircle(m, v) && OnCircle(m, x) && Pow2(i) < m
    ensures OnCircle(m, Offset(m, v, i))
    ensures Dist(m, v, x) >= Pow2(i) ==> Dist(m, Offset(m, v, i), x) == Dist(m, v, x) - Pow2(i)
    ensures Dist(m, v, x) < Pow2(i) ==> Dist(m, Offset(m, v, i), x) == Dist(m, v, x) + m - Pow2(i)
  {
  }

  /** If some node lies 2^i or more past v, the finger does too and is the nearest such node. */
  lemma FingerPosition(m: int, ring: seq<Id>, v: Id, i: nat, x: Id)
    requires SortedRing(m, ring) && OnCircle(m, v) && x in ring && Pow2(i) < m
    requires Dist(m, v, x) >= Pow2(i)
    ensures Pow2(i) <= Dist(m, v, TrueFinger(m, ring, v, i)) <= Dist(m, v, x)
  {
  }

  lemma RightFingersAreOrdered(m: int, bits: nat, ring: seq<Id>, v: Id, finger: seq<Option<Id>>)
    requires SortedRing(m, ring) && v in ring && RightFingers(m, bits, ring, v, finger)
    ensures CP.InRingOrder(m, v, finger)
  {
    forall i, j | 0 <= i < j < |finger| && finger[i].value != v && finger[j].value != v
      ensures Dist(m, v, finger[i].value) <= Dist(m, v, finger[j].value)
    {
      Pow2Strict(i, bits);
      Pow2Strict(j, bits);
      Pow2Monotone(i, j);
      var f := TrueFinger(m, ring, v, j);
      OffsetDistances(m, v, j, f);
      OffsetDistances(m, v, j, v);
      var k := IndexOf(ring, v);
      OwnerIsNearestClockwise(m, ring, Offset(m, v, j), k);
      FingerPosition(m, ring, v, i, f);
    }
  }

  lemma SuccessorsAreOrdered(m: int, ring: seq<Id>, i: nat, list: seq<Option<Id>>)
    requires SortedRing(m, ring) && i < |ring| && FollowsRing(ring, i, list)
    ensures CP.InRingOrder(m, ring[i], list)
  {
  }

  /** The last ring node strictly before the key. */
  function KeyPredecessor(ring: seq<Id>, key: Id): Id
    requires |ring| > 0
  {
    var o := OwnerIndex(ring, key);
    if o == 0 then ring[|ring| - 1] else ring[o - 1]
  }

  /** No ring node lies strictly between the key's predecessor and the key. */
  lemma NothingPastPredecessor(m: int, ring: seq<Id>, v: Id, x: Id, key: Id)
    requires SortedRing(m, ring) && v in ring && x in ring && OnCircle(m, key) && key != v
    requires Between(v, key, x) || x == v
    ensures Dist(m, v, x) <= Dist(m, v, KeyPredecessor(ring, key)) < Dist(m, v, key)
    ensures Dist(m, v, x) + Dist(m, x, KeyPredecessor(ring, key)) == Dist(m, v, KeyPredecessor(ring, key))
  {
  }

  /** The first node the iterator offers is at least as far round as any known node before the key. */
  lemma FirstHopIsFarthest(m: int, bits: nat, ring: seq<Id>, s: nat, net: Net, v: Id, key: Id, f: Id)
    requires IdealLists(m, ring, s, net) && v in net && OnCircle(m, key) && key != v
    requires RightFingers(m, bits, ring, v, net[v].finger)
    requires CP.Candidate(TablesOf(v, net[v]), key, f)
    ensures var ys := CP.Yields(m, TablesOf(v, net[v]), key, CP.Start(TablesOf(v, net[v])));
            ys != [] && Dist(m, v, ys[0]) >= Dist(m, v, f)
  {
    var t := TablesOf(v, net[v]);
    var i := IndexOf(ring, v);
    SuccessorsAreOrdered(m, ring, i, net[v].successors);
    RightFingersAreOrdered(m, bits, ring, v, net[v].finger);
    forall j: nat
      ensures j < |t.successors| && t.successors[j].Some? ==> OnCircle(m, t.successors[j].value)
      ensures j < |t.finger| && t.finger[j].Some? ==> OnCircle(m, t.finger[j].value)
    {
      SlotIsMember(m, s, net, v, j);
    }
    CP.StepIsClosest(m, t, key, CP.Start(t), f);
    var y := CP.Yields(m, t, key, CP.Start(t))[0];
    CP.StepKeepsScanned(m, t, key, CP.Start(t));
    CP.CandidateOnCircle(m, t, key, y);
    CP.CandidateOnCircle(m, t, key, f);
    ClosestIsFarthest(m, v, key, y, f);
  }

  /** A finger that reaches at least 2^k past v without passing the key. */
  lemma FingerReaches(m: int, bits: nat, ring: seq<Id>, v: Id, finger: seq<Option<Id>>, successors: seq<Option<Id>>, key: Id, k: nat)
    requires SortedRing(m, ring) && v in ring && OnCircle(m, key) && key != v
    requires RightFingers(m, bits, ring, v, finger)
    requires k < bits && Dist(m, v, KeyPredecessor(ring, key)) >= Pow2(k)
    ensures CP.Candidate(CP.Tables(v, successors, finger), key, TrueFinger(m, ring, v, k))
    ensures Dist(m, v, TrueFinger(m, ring, v, k)) >= Pow2(k)
  {
    NothingPastPredecessor(m, ring, v, v, key);
    Pow2Strict(k, bits);
    FingerPosition(m, ring, v, k, KeyPredecessor(ring, key));
    assert finger[k] == Some(TrueFinger(m, ring, v, k));
  }

  lemma HopProgress(m: int, ring: seq<Id>, v: Id, y: Id, key: Id, k: nat)
    requires SortedRing(m, ring) && v in ring && y in ring && OnCircle(m, key) && key != v
    requires Between(v, key, y) && Dist(m, v, KeyPredecessor(ring, key)) < Pow2(k)
    requires k > 0 && Dist(m, v, KeyPredecessor(ring, key)) >= Pow2(k - 1) ==> Dist(m, v, y) >= Pow2(k - 1)
    ensures k > 0 && Dist(m, y, KeyPredecessor(ring, key)) < Pow2(k - 1)
  {
  }

  /** The first node v asks about the key. */
  ghost function FirstHop(m: int, s: nat, net: Net, v: Id, key: Id): (y: Id)
    requires WellFormed(m, s, net) && NoSelfLoops(m, s, net) && v in net && OnCircle(m, key) && key != v
    requires !BetweenRightIncl(v, Succ(net, v), key)
    ensures y in net && Between(v, key, y) && Dist(m, y, key) < Dist(m, v, key)
  {
    FirstHopExists(m, s, net, v, key);
    CandidatesAreCloser(m, s, net, v, key);
    var ys := CP.Yields(m, TablesOf(v, net[v]), key, CP.Start(TablesOf(v, net[v])));
    assert ys[0] in ys;
    ys[0]
  }

  /** One hop from v brings a key predecessor less than 2^k ahead of v to less than 2^(k-1) ahead. */
  lemma HopHalves(m: int, bits: nat, ring: seq<Id>, s: nat, net: Net, v: Id, key: Id, k: nat)
    requires IdealLists(m, ring, s, net) && NoSelfLoops(m, s, net) && v in net && OnCircle(m, key) && key != v
    requires RightFingers(m, bits, ring, v, net[v].finger)
    requires !BetweenRightIncl(v, Succ(net, v), key)
    requires k <= bits && Dist(m, v, KeyPredecessor(ring, key)) < Pow2(k)
    ensures k > 0 && Dist(m, FirstHop(m, s, net, v, key), KeyPredecessor(ring, key)) < Pow2(k - 1)
  {
    if k > 0 && Dist(m, v, KeyPredecessor(ring, key)) >= Pow2(k - 1) {
      FingerReaches(m, bits, ring, v, net[v].finger, net[v].successors, key, k - 1);
      FirstHopIsFarthest(m, bits, ring, s, net, v, key, TrueFinger(m, ring, v, k - 1));
    }
    HopProgress(m, ring, v, FirstHop(m, s, net, v, key), key, k);
    hide FirstHop, KeyPredecessor, RightFingers, TrueFinger, IdealLists, NoSelfLoops, WellFormed, SortedRing;
  }

  lemma ClosestIsFarthest(m: int, v: Id, key: Id, y: Id, f: Id)
    requires OnCircle(m, v) && OnCircle(m, key) && OnCircle(m, y) && OnCircle(m, f)
    requires Between(v, key, y) && Between(v, key, f) && Dist(m, y, key) <= Dist(m, f, key)
    ensures Dist(m, v, y) >= Dist(m, v, f)
  {
  }

  lemma CallsOfFirstHop(m: int, s: nat, net: Net, v: Id, n: nat, key: Id)
    requires WellFormed(m, s, net) && NoSelfLoops(m, s, net) && v in net && 1 <= n <= s && OnCircle(m, key) && key != v
    requires !BetweenRightIncl(v, Succ(net, v), key)
    ensures Find(m, s, net, net.Keys, v, n, key).calls
         == 1 + Find(m, s, net, net.Keys, FirstHop(m, s, net, v, key), n, key).calls
  {
    var y := FirstHop(m, s, net, v, key);
    var u := LookupEndsAtArc(m, s, net, y, n, key);
    var ys := CP.Yields(m, TablesOf(v, net[v]), key, CP.Start(TablesOf(v, net[v])));
    CandidatesAreCloser(m, s, net, v, key);
    HeadAnswers(m, s, net, ys, n, key, Dist(m, v, key));
    hide TryEach, CP.Yields, CP.Step, CP.Start, NoSelfLoops, FromLaterSuccessors;
  }

  /** A peer that answers ends the search. */
  lemma HeadAnswers(m: int, s: nat, net: Net, ys: seq<Id>, n: nat, key: Id, d: int)
    requires WellFormed(m, s, net) && 1 <= n <= s && OnCircle(m, key) && CloserMembers(m, net, ys, key, d)
    requires ys != [] && ys[0] in net && Find(m, s, net, net.Keys, ys[0], n, key).reply.Ok?
    ensures TryEach(m, s, net, net.Keys, ys, n, key, d).reply.Ok?
    ensures TryEach(m, s, net, net.Keys, ys, n, key, d).calls == 1 + Find(m, s, net, net.Keys, ys[0], n, key).calls
  {
  }

  /** A lookup under way at v on an ideal ring with right fingers. */
  ghost predicate Hopping(m: int, bits: nat, ring: seq<Id>, s: nat, net: Net, v: Id, n: nat, key: Id) {
    && IdealLists(m, ring, s, net) && NoSelfLoops(m, s, net)
    && AllFingersRight(m, bits, ring, net)
    && v in net && 1 <= n <= s && OnCircle(m, key) && key != v
  }

  lemma HopStep(m: int, bits: nat, ring: seq<Id>, s: nat, net: Net, v: Id, n: nat, key: Id, k: nat) returns (y: Option<Id>)
    requires Hopping(m, bits, ring, s, net, v, n, key)
    requires k <= bits && Dist(m, v, KeyPredecessor(ring, key)) < Pow2(k)
    ensures y.None? ==> Find(m, s, net, net.Keys, v, n, key).calls == 0
    ensures y.Some? ==>
      && k > 0 && Hopping(m, bits, ring, s, net, y.value, n, key)
      && Dist(m, y.value, KeyPredecessor(ring, key)) < Pow2(k - 1)
      && Find(m, s, net, net.Keys, v, n, key).calls == 1 + Find(m, s, net, net.Keys, y.value, n, key).calls
  {
    if BetweenRightIncl(v, Succ(net, v), key) {
      y := None;
      OwnArcIsFree(m, s, net, v, n, key);
    } else {
      y := Some(FirstHop(m, s, net, v, key));
      assert RightFingers(m, bits, ring, v, net[v].finger);
      hide Find, FirstHop;
      HopHalves(m, bits, ring, s, net, v, key, k);
      CallsOfFirstHop(m, s, net, v, n, key);
    }
  }

  lemma OwnArcIsFree(m: int, s: nat, net: Net, v: Id, n: nat, key: Id)
    requires WellFormed(m, s, net) && v in net && 1 <= n <= s && OnCircle(m, key)
    requires BetweenRightIncl(v, Succ(net, v), key)
    ensures Find(m, s, net, net.Keys, v, n, key).calls == 0
  {
  }

  lemma {:induction false} HopsFrom(m: int, bits: nat, ring: seq<Id>, s: nat, net: Net, v: Id, n: nat, key: Id, k: nat)
    requires Hopping(m, bits, ring, s, net, v, n, key)
    requires k <= bits && Dist(m, v, KeyPredecessor(ring, key)) < Pow2(k)
    ensures Find(m, s, net, net.Keys, v, n, key).calls <= k
    decreases k
  {
    hide *;
    var y := HopStep(m, bits, ring, s, net, v, n, key, k);
    if y.Some? {
      HopsFrom(m, bits, ring, s, net, y.value, n, key, k - 1);
    }
  }

  /** With right fingers and every peer reachable, a lookup makes at most hashBits remote calls. */
  lemma HopBound(m: int, bits: nat, ring: seq<Id>, s: nat, net: Net, v: Id, n: nat, key: Id)
    requires IdealLists(m, ring, s, net) && v in net && 1 <= n <= s && OnCircle(m, key) && key != v
    requires m == Pow2(bits)
    requires AllFingersRight(m, bits, ring, net)
    ensures Find(m, s, net, net.Keys, v, n, key).calls <= bits
  {
    IdealHasNoSelfLoops(m, ring, s, net);
    NothingPastPredecessor(m, ring, v, v, key);
    HopsFrom(m, bits, ring, s, net, v, n, key, bits);
  }
}
