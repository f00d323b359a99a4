/** A settled ring that repairs its fingers: every lookup takes at most hashBits remote calls. */
module Routing {
  import opened Wrappers
  import opened RingMath
  import opened Nodes
  import opened Lookup
  import opened Hops
  import opened Vnodes
  import opened Fingers

  /** An ideal ring whose node v keeps full-width offsets and a table of hashBits fingers. */
  ghost predicate Repairing(m: int, bits: nat, ring: seq<Id>, s: nat, net: Net, v: Id) {
    && IdealLists(m, ring, s, net) && v in net && m == Pow2(bits) && OffsetsFullWidth(m, bits, v)
    && |net[v].finger| == bits && net[v].lastFinger < bits
  }

  /** Only the fingers of v differ. */
  ghost predicate OnlyFingersOf(net: Net, net': Net, v: Id) {
    net'.Keys == net.Keys && forall w :: w in net && w != v ==> net'[w] == net[w]
  }

  /** The ring is still ideal and ready, and only the fingers of v differ. */
  ghost predicate Kept(m: int, bits: nat, ring: seq<Id>, s: nat, net: Net, net': Net, v: Id) {
    Repairing(m, bits, ring, s, net', v) && OnlyFingersOf(net, net', v)
  }

  /** The state after one repair by v. */
  ghost function Repaired(m: int, bits: nat, ring: seq<Id>, s: nat, net: Net, v: Id): Net
    requires Repairing(m, bits, ring, s, net, v)
  {
    FingerKeyOnCircle(m, bits, v, net[v].lastFinger);
    FixAt(m, s, net, v)
  }

  lemma RepairOnce(m: int, bits: nat, ring: seq<Id>, s: nat, net: Net, v: Id)
    requires Repairing(m, bits, ring, s, net, v)
    ensures var net' := Repaired(m, bits, ring, s, net, v);
            && Repairing(m, bits, ring, s, net', v) && Kept(m, bits, ring, s, net, net', v)
            && v in net && v in net' && net[v].lastFinger < bits
            && (net'[v].lastFinger == 0 || net'[v].lastFinger > net[v].lastFinger)
  {
    FingerKeyOnCircle(m, bits, v, net[v].lastFinger);
    assert FullWidth(m, Offset(m, v, net[v].lastFinger));
    RepairFinds(m, bits, ring, s, net, v);
    FixKeepsIdeal(m, bits, ring, s, net, v);
    hide FixAt, IdealLists, OffsetsFullWidth;
  }

  lemma SweepUnrolls(m: int, bits: nat, ring: seq<Id>, s: nat, net: Net, v: Id, calls: nat)
    requires Repairing(m, bits, ring, s, net, v)
    ensures Sweep(m, s, net, v, calls) ==
            if calls == 0 then net else Sweep(m, s, Repaired(m, bits, ring, s, net, v), v, calls - 1)
  {
    FingerKeyOnCircle(m, bits, v, net[v].lastFinger);
    hide FixAt, WellFormedNode, OffsetsFullWidth, FollowsRing;
  }

  lemma KeptCompose(m: int, bits: nat, ring: seq<Id>, s: nat, net: Net, net1: Net, net2: Net, v: Id)
    requires Kept(m, bits, ring, s, net, net1, v) && Kept(m, bits, ring, s, net1, net2, v)
    ensures Kept(m, bits, ring, s, net, net2, v)
  {
    hide Repairing;
    assert forall w :: w in net <==> w in net.Keys;
    assert forall w :: w in net1 <==> w in net1.Keys;
  }

  lemma KeptAtFirst(m: int, bits: nat, ring: seq<Id>, s: nat, net: Net, v: Id)
    requires Repairing(m, bits, ring, s, net, v)
    ensures Kept(m, bits, ring, s, net, net, v)
  {
    hide Repairing;
  }

  /** Repairs by v keep the ring ideal and touch no other node. */
  lemma {:induction false} SweepKeeps(m: int, bits: nat, ring: seq<Id>, s: nat, net: Net, v: Id, calls: nat)
    requires Repairing(m, bits, ring, s, net, v)
    ensures Kept(m, bits, ring, s, net, Sweep(m, s, net, v, calls), v)
    decreases calls
  {
    hide *;
    SweepUnrolls(m, bits, ring, s, net, v, calls);
    if calls == 0 {
      KeptAtFirst(m, bits, ring, s, net, v);
    } else {
      RepairOnce(m, bits, ring, s, net, v);
      var net' := Repaired(m, bits, ring, s, net, v);
      SweepKeeps(m, bits, ring, s, net', v, calls - 1);
      KeptCompose(m, bits, ring, s, net, net', Sweep(m, s, net', v, calls - 1), v);
    }
  }

  lemma {:induction false} SweepAdds(m: int, bits: nat, ring: seq<Id>, s: nat, net: Net, v: Id, a: nat, b: nat)
    requires Repairing(m, bits, ring, s, net, v)
    ensures Sweep(m, s, net, v, a + b) == Sweep(m, s, Sweep(m, s, net, v, a), v, b)
    decreases a
  {
    hide *;
    SweepUnrolls(m, bits, ring, s, net, v, a);
    SweepUnrolls(m, bits, ring, s, net, v, a + b);
    if a > 0 {
      RepairOnce(m, bits, ring, s, net, v);
      SweepAdds(m, bits, ring, s, Repaired(m, bits, ring, s, net, v), v, a - 1, b);
    }
  }

  /** From any finger, at most hashBits repairs bring last_finger round to 0. */
  lemma {:induction false} WrapsToZero(m: int, bits: nat, ring: seq<Id>, s: nat, net: Net, v: Id) returns (calls: nat)
    requires Repairing(m, bits, ring, s, net, v)
    ensures v in net && calls <= bits - net[v].lastFinger
    ensures v in Sweep(m, s, net, v, calls) && Sweep(m, s, net, v, calls)[v].lastFinger == 0
    decreases bits - net[v].lastFinger
  {
    hide *;
    RepairOnce(m, bits, ring, s, net, v);
    var net' := Repaired(m, bits, ring, s, net, v);
    if net[v].lastFinger == 0 {
      calls := 0;
    } else if net'[v].lastFinger == 0 {
      calls := 1;
      SweepUnrolls(m, bits, ring, s, net', v, 0);
    } else {
      var more := WrapsToZero(m, bits, ring, s, net', v);
      calls := more + 1;
    }
    SweepUnrolls(m, bits, ring, s, net, v, calls);
  }

  ghost predicate AtFirst(net: Net, v: Id) {
    v in net && net[v].lastFinger == 0
  }

  lemma FirstSweep(m: int, bits: nat, ring: seq<Id>, s: nat, net: Net, v: Id) returns (calls: nat)
    requires Repairing(m, bits, ring, s, net, v)
    ensures calls <= bits && AtFirst(Sweep(m, s, net, v, calls), v) && Repairing(m, bits, ring, s, Sweep(m, s, net, v, calls), v)
  {
    calls := WrapsToZero(m, bits, ring, s, net, v);
    SweepKeeps(m, bits, ring, s, net, v, calls);
    hide Repairing, OnlyFingersOf, Sweep;
  }

  lemma FreshSweep(m: int, bits: nat, ring: seq<Id>, s: nat, net: Net, v: Id) returns (calls: nat)
    requires Repairing(m, bits, ring, s, net, v) && AtFirst(net, v)
    ensures calls <= bits && FingersRightAt(m, bits, ring, Sweep(m, s, net, v, calls), v)
  {
    calls := SweepRepairsTable(m, bits, ring, s, net, v);
  }

  /** From any state of its table, at most twice hashBits repairs make it right. */
  lemma NodeSwept(m: int, bits: nat, ring: seq<Id>, s: nat, net: Net, v: Id) returns (calls: nat)
    requires Repairing(m, bits, ring, s, net, v)
    ensures calls <= 2 * bits
    ensures var net' := Sweep(m, s, net, v, calls);
            Kept(m, bits, ring, s, net, net', v) && FingersRightAt(m, bits, ring, net', v)
  {
    hide *;
    var first := FirstSweep(m, bits, ring, s, net, v);
    var second := FreshSweep(m, bits, ring, s, Sweep(m, s, net, v, first), v);
    calls := first + second;
    SweepAdds(m, bits, ring, s, net, v, first, second);
    SweepKeeps(m, bits, ring, s, net, v, calls);
  }

  /** The nodes of a list sweep one after the other, each for a number of repairs. */
  ghost function SweepEach(m: int, s: nat, net: Net, vs: seq<Id>, calls: seq<nat>): Net
    requires |calls| == |vs|
    decreases |vs|
  {
    if vs == [] then net else SweepEach(m, s, Sweep(m, s, net, vs[0], calls[0]), vs[1..], calls[1..])
  }

  /** Every node of the list is ready to repair its fingers. */
  ghost predicate AllRepairing(m: int, bits: nat, ring: seq<Id>, s: nat, net: Net, vs: seq<Id>) {
    IdealLists(m, ring, s, net) && forall k {:trigger vs[k]} :: 0 <= k < |vs| ==> Repairing(m, bits, ring, s, net, vs[k])
  }

  ghost predicate FingersRightAt(m: int, bits: nat, ring: seq<Id>, net: Net, v: Id) {
    |ring| > 0 && v in net && RightFingers(m, bits, ring, v, net[v].finger)
  }

  lemma OthersStayReady(m: int, bits: nat, ring: seq<Id>, s: nat, net: Net, net': Net, v: Id, w: Id)
    requires Repairing(m, bits, ring, s, net, w) && Repairing(m, bits, ring, s, net', v) && OnlyFingersOf(net, net', v)
    ensures Repairing(m, bits, ring, s, net', w)
    ensures w != v && FingersRightAt(m, bits, ring, net, w) ==> FingersRightAt(m, bits, ring, net', w)
  {
    hide IdealLists, OffsetsFullWidth, RightFingers;
  }

  /** Sweeping every node of a list makes each of their tables right, and spoils none. */
  lemma {:induction false} EachSwept(m: int, bits: nat, ring: seq<Id>, s: nat, net: Net, vs: seq<Id>) returns (calls: seq<nat>)
    requires AllRepairing(m, bits, ring, s, net, vs)
    ensures |calls| == |vs| && forall k :: 0 <= k < |calls| ==> calls[k] <= 2 * bits
    ensures var net' := SweepEach(m, s, net, vs, calls);
            && IdealLists(m, ring, s, net')
            && (forall w {:trigger FingersRightAt(m, bits, ring, net', w)} ::
                  w in vs || FingersRightAt(m, bits, ring, net, w) ==> FingersRightAt(m, bits, ring, net', w))
    decreases |vs|
  {
    if vs == [] {
      calls := [];
    } else {
      var v := vs[0];
      var first := NodeSwept(m, bits, ring, s, net, v);
      var net' := Sweep(m, s, net, v, first);
      hide Sweep, IdealLists, OffsetsFullWidth, RightFingers;
      forall k | 0 <= k < |vs[1..]| ensures Repairing(m, bits, ring, s, net', vs[1..][k]) {
        OthersStayReady(m, bits, ring, s, net, net', v, vs[k + 1]);
      }
      var rest := EachSwept(m, bits, ring, s, net', vs[1..]);
      calls := [first] + rest;
      assert calls[1..] == rest;
      assert vs == [v] + vs[1..];
    }
  }

  /**
   * On an ideal ring with full-width offsets, however wrong the fingers are, at most twice
   * hashBits repairs by each node make every lookup of every key take at most hashBits
   * remote calls.
   */
  lemma RepairedRingIsFast(m: int, bits: nat, ring: seq<Id>, s: nat, net: Net) returns (calls: seq<nat>)
    requires AllRepairing(m, bits, ring, s, net, ring)
    ensures |calls| == |ring| && forall k :: 0 <= k < |calls| ==> calls[k] <= 2 * bits
    ensures var net' := SweepEach(m, s, net, ring, calls);
            && IdealLists(m, ring, s, net')
            && forall v, n: nat, key :: v in net' && 1 <= n <= s && OnCircle(m, key) && key != v ==>
                 Find(m, s, net', net'.Keys, v, n, key).calls <= bits
  {
    calls := EachSwept(m, bits, ring, s, net, ring);
    var net' := SweepEach(m, s, net, ring, calls);
    assert m == Pow2(bits) by {
      assert Repairing(m, bits, ring, s, net, ring[0]);
    }
    forall w | w in net' ensures RightFingers(m, bits, ring, w, net'[w].finger) {
      assert w in ring;
      assert FingersRightAt(m, bits, ring, net', w);
    }
    forall v, n: nat, key | v in net' && 1 <= n <= s && OnCircle(m, key) && key != v
      ensures Find(m, s, net', net'.Keys, v, n, key).calls <= bits {
      HopBound(m, bits, ring, s, net', v, n, key);
    }
  }
}
