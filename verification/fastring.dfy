/**
 * Finger repair inside a run: once the successor lists of a ring at rest are right, enough
 * repairs by every node, among any other steps but joins, make every lookup fast.
 */
module FastRing {
  import opened Wrappers
  import opened RingMath
  import opened Nodes
  import opened Lookup
  import opened Hops
  import opened Vnodes
  import opened Fingers
  import opened Stabilise
  import opened Settling
  import opened Routing

  /** A state of a run at rest whose successor lists are prefixes of ring order, with full-width finger offsets. */
  ghost predicate Steady(m: int, s: nat, bits: nat, core: set<Id>, ring: seq<Id>, net: Net) {
    && Resting(m, s, bits, core, ring, net) && AllRight(ring, net, s) && s <= |ring| - 1
    && forall v {:trigger OffsetsFullWidth(m, bits, v)} :: v in ring ==> OffsetsFullWidth(m, bits, v)
  }

  lemma SteadyIsReady(m: int, s: nat, bits: nat, core: set<Id>, ring: seq<Id>, net: Net, v: Id)
    requires Steady(m, s, bits, core, ring, net) && v in ring
    ensures IdealLists(m, ring, s, net) && Repairing(m, bits, ring, s, net, v)
  {
    FullIsIdeal(m, s, bits, core, ring, net, s);
    hide IdealLists, AllRight, IsIdealRing, WellFormed, OffsetsFullWidth;
  }

  lemma ListsStayRight(m: int, s: nat, bits: nat, core: set<Id>, ring: seq<Id>, net: Net, e: Event)
    requires Resting(m, s, bits, core, ring, net) && AllRight(ring, net, s)
    requires Enabled(m, s, bits, net, e) && !e.Join?
    ensures AllRight(ring, Apply(m, s, bits, net, e), s)
  {
    var net' := Apply(m, s, bits, net, e);
    hide Resting, ListRight, Apply, Enabled;
    forall i: nat | i < |ring| ensures ListRight(ring, net', i, s) {
      StepExtends(m, s, bits, core, ring, net, e, s, i);
    }
  }

  lemma SteadyStays(m: int, s: nat, bits: nat, core: set<Id>, ring: seq<Id>, net: Net, e: Event)
    requires Steady(m, s, bits, core, ring, net) && Enabled(m, s, bits, net, e) && !e.Join?
    ensures Steady(m, s, bits, core, ring, Apply(m, s, bits, net, e))
  {
    hide Resting, AllRight, Apply, Enabled, OffsetsFullWidth;
    Settling.StepRests(m, s, bits, core, ring, net, e);
    ListsStayRight(m, s, bits, core, ring, net, e);
  }

  // ---------- how far one node's repair has come ----------

  /**
   * At most k more repairs make v's table right: it is right, or right up to last_finger
   * and k repairs reach the end, or k repairs reach the end and go through once more.
   */
  ghost predicate Within(m: int, bits: nat, ring: seq<Id>, net: Net, v: Id, k: nat) {
    && |ring| > 0 && v in net && |net[v].finger| == bits && net[v].lastFinger < bits
    && (|| RightFingers(m, bits, ring, v, net[v].finger)
        || (RightUpTo(m, ring, v, net[v].finger, net[v].lastFinger) && bits - net[v].lastFinger <= k)
        || 2 * bits - net[v].lastFinger <= k)
  }

  lemma RightTableStays(m: int, bits: nat, ring: seq<Id>, v: Id, node: Node)
    requires SortedRing(m, ring) && v in ring && RightFingers(m, bits, ring, v, node.finger) && node.lastFinger < bits
    requires OffsetsFullWidth(m, bits, v)
    ensures RightFingers(m, bits, ring, v, FixedNode(m, v, node, TrueFinger(m, ring, v, node.lastFinger)).finger)
  {
    var last := node.lastFinger;
    var f := TrueFinger(m, ring, v, last);
    var upto := LastFilled(m, v, f, bits, last);
    var finger' := FixedNode(m, v, node, f).finger;
    forall i | 0 <= i < bits ensures finger'[i] == Some(TrueFinger(m, ring, v, i)) {
      if last <= i <= upto {
        assert FullWidth(m, Offset(m, v, i));
        RepairWritesTrueFingers(m, bits, ring, v, last, i);
      }
    }
  }

  lemma DoneStaysDone(m: int, bits: nat, ring: seq<Id>, s: nat, net: Net, v: Id)
    requires Repairing(m, bits, ring, s, net, v) && RightFingers(m, bits, ring, v, net[v].finger)
    ensures var net' := Repaired(m, bits, ring, s, net, v);
            v in net' && RightFingers(m, bits, ring, v, net'[v].finger)
  {
    var last := net[v].lastFinger;
    FingerKeyOnCircle(m, bits, v, last);
    assert FullWidth(m, Offset(m, v, last));
    assert FingerKey(m, v, last) == Offset(m, v, last);
    RepairFinds(m, bits, ring, s, net, v);
    hide FixAt, FixedNode, RightFingers, OffsetsFullWidth, KeyOf, Offset, OwnerIndex;
    RightTableStays(m, bits, ring, v, net[v]);
  }

  /** A repair by v itself brings it one step nearer. */
  lemma OwnRepairCounts(m: int, bits: nat, ring: seq<Id>, s: nat, net: Net, v: Id, k: nat)
    requires Repairing(m, bits, ring, s, net, v) && Within(m, bits, ring, net, v, k + 1)
    ensures Within(m, bits, ring, Repaired(m, bits, ring, s, net, v), v, k)
  {
    RepairOnce(m, bits, ring, s, net, v);
    if RightFingers(m, bits, ring, v, net[v].finger) {
      DoneStaysDone(m, bits, ring, s, net, v);
    } else if RightUpTo(m, ring, v, net[v].finger, net[v].lastFinger) {
      RepairExtends(m, bits, ring, s, net, v);
    }
    hide FixAt, IdealLists, OffsetsFullWidth;
  }

  /** Steps of other nodes, and v's own checks and notifications, leave its fingers alone. */
  ghost predicate FingersKept(net: Net, net': Net, v: Id) {
    v in net && v in net' && net'[v].finger == net[v].finger && net'[v].lastFinger == net[v].lastFinger
  }

  lemma OtherStepKeepsFingers(m: int, s: nat, bits: nat, net: Net, e: Event, v: Id)
    requires Enabled(m, s, bits, net, e) && !e.Join? && e != FixFingerTable(v) && v in net
    ensures FingersKept(net, Apply(m, s, bits, net, e), v)
  {
    hide WellFormed, CheckedList, AdoptedList, FixedNode, NotifiedPredecessor;
  }

  // ---------- over a run ----------

  /** How often v repairs its fingers at the steps from a up to b. */
  ghost function Repairs(events: seq<Event>, v: Id, a: nat, b: nat): nat
    requires a <= b <= |events|
    decreases b
  {
    if a == b then 0 else Repairs(events, v, a, b - 1) + (if events[b - 1] == FixFingerTable(v) then 1 else 0)
  }

  function Left(bits: nat, done: nat): nat {
    if done >= 2 * bits then 0 else 2 * bits - done
  }

  lemma StepComesNearer(m: int, s: nat, bits: nat, core: set<Id>, ring: seq<Id>, net: Net, e: Event, v: Id, done: nat)
    requires Steady(m, s, bits, core, ring, net) && Enabled(m, s, bits, net, e) && !e.Join? && v in ring
    requires Within(m, bits, ring, net, v, Left(bits, done))
    ensures Within(m, bits, ring, Apply(m, s, bits, net, e), v, Left(bits, if e == FixFingerTable(v) then done + 1 else done))
  {
    SteadyIsReady(m, s, bits, core, ring, net, v);
    if e == FixFingerTable(v) {
      assert Apply(m, s, bits, net, e) == Repaired(m, bits, ring, s, net, v);
      hide Apply, Enabled, Repaired, Steady, Repairing;
      if Left(bits, done) > 0 {
        OwnRepairCounts(m, bits, ring, s, net, v, Left(bits, done) - 1);
      } else {
        assert RightFingers(m, bits, ring, v, net[v].finger);
        DoneStaysDone(m, bits, ring, s, net, v);
        RepairedTable(m, bits, ring, s, net, v);
      }
    } else {
      OtherStepKeepsFingers(m, s, bits, net, e, v);
    }
  }

  lemma RepairedTable(m: int, bits: nat, ring: seq<Id>, s: nat, net: Net, v: Id)
    requires Repairing(m, bits, ring, s, net, v)
    ensures var net' := Repaired(m, bits, ring, s, net, v);
            v in net' && |net'[v].finger| == bits && net'[v].lastFinger < bits && |ring| > 0
  {
    RepairOnce(m, bits, ring, s, net, v);
    hide FixAt;
  }

  lemma {:induction false} RunComesNearer(
    m: int, s: nat, bits: nat, ids: seq<Id>, ring: seq<Id>, nets: seq<Net>, events: seq<Event>, a: nat, b: nat, v: Id)
    requires Run(m, s, bits, ids, nets, events) && a <= b && NoJoinIn(events, a, b) && |nets| == |events| + 1
    requires Steady(m, s, bits, Members(ids), ring, nets[a]) && v in ring
    ensures Steady(m, s, bits, Members(ids), ring, nets[b])
    ensures Within(m, bits, ring, nets[b], v, Left(bits, Repairs(events, v, a, b)))
    decreases b
  {
    hide Steady, Within, Apply, Enabled, LocallyBuilt;
    if a == b {
      StartsWithin(m, s, bits, Members(ids), ring, nets[a], v);
    } else {
      RunComesNearer(m, s, bits, ids, ring, nets, events, a, b - 1, v);
      assert StepAt(m, s, bits, nets, events, b - 1);
      SteadyStays(m, s, bits, Members(ids), ring, nets[b - 1], events[b - 1]);
      StepComesNearer(m, s, bits, Members(ids), ring, nets[b - 1], events[b - 1], v, Repairs(events, v, a, b - 1));
    }
  }

  lemma StartsWithin(m: int, s: nat, bits: nat, core: set<Id>, ring: seq<Id>, net: Net, v: Id)
    requires Steady(m, s, bits, core, ring, net) && v in ring
    ensures Within(m, bits, ring, net, v, 2 * bits)
  {
    SteadyIsReady(m, s, bits, core, ring, net, v);
    hide IdealLists, Steady, OffsetsFullWidth;
  }

  /** Every node repairs its fingers 2 * hashBits times at the steps from a up to b, none of which is a join. */
  ghost predicate EachRepairs(ring: seq<Id>, bits: nat, events: seq<Event>, a: nat, b: nat) {
    a <= b && NoJoinIn(events, a, b)
    && forall v {:trigger Repairs(events, v, a, b)} :: v in ring ==> Repairs(events, v, a, b) >= 2 * bits
  }

  lemma SteadyRunIsFast(
    m: int, s: nat, bits: nat, ids: seq<Id>, ring: seq<Id>, nets: seq<Net>, events: seq<Event>, a: nat, b: nat)
    requires Run(m, s, bits, ids, nets, events) && |nets| == |events| + 1 && EachRepairs(ring, bits, events, a, b)
    requires Steady(m, s, bits, Members(ids), ring, nets[a])
    ensures IdealLists(m, ring, s, nets[b]) && m == Pow2(bits) && AllFingersRight(m, bits, ring, nets[b])
  {
    hide Run, Steady, Resting;
    RunComesNearer(m, s, bits, ids, ring, nets, events, a, b, FirstOf(m, s, bits, Members(ids), ring, nets[a]));
    SteadyIsReady(m, s, bits, Members(ids), ring, nets[b], FirstOf(m, s, bits, Members(ids), ring, nets[a]));
    forall v | v in nets[b] ensures RightFingers(m, bits, ring, v, nets[b][v].finger) {
      assert v in ring;
      RunComesNearer(m, s, bits, ids, ring, nets, events, a, b, v);
      assert Repairs(events, v, a, b) >= 2 * bits;
    }
  }

  ghost function FirstOf(m: int, s: nat, bits: nat, core: set<Id>, ring: seq<Id>, net: Net): (v: Id)
    requires Steady(m, s, bits, core, ring, net)
    ensures v in ring
  {
    ring[0]
  }

  /**
   * In a run at rest, after rounds of notifications that settle the lists and then 2 * hashBits
   * repairs by every node, in any order among checks, notifications and each other, every
   * lookup of any key from any other node finds its owner in at most hashBits remote calls.
   */
  lemma RunBecomesFast(
    m: int, s: nat, bits: nat, ids: seq<Id>, ring: seq<Id>, nets: seq<Net>, events: seq<Event>, cuts: seq<nat>, b: nat,
    v: Id, n: nat, key: Id)
    requires Run(m, s, bits, ids, nets, events) && |nets| == |events| + 1 && RoundsAt(ring, events, cuts)
    requires SortedRing(m, ring) && (forall x :: x in nets[cuts[0]] <==> x in ring) && AtRest(m, s, nets[cuts[0]])
    requires s <= |ring| - 1 && s <= |cuts| && forall w {:trigger OffsetsFullWidth(m, bits, w)} :: w in ring ==> OffsetsFullWidth(m, bits, w)
    requires EachRepairs(ring, bits, events, cuts[|cuts| - 1], b)
    requires v in ring && 1 <= n <= s && OnCircle(m, key) && key != v
    ensures IdealLists(m, ring, s, nets[b])
    ensures var o := Find(m, s, nets[b], nets[b].Keys, v, n, key);
            o.calls <= bits && o.reply.Ok? && |o.reply.value| == n && o.reply.value[0] == Some(ring[OwnerIndex(ring, key)])
  {
    SettledIsSteady(m, s, bits, ids, ring, nets, events, cuts);
    hide Run, Steady, AtRest, RoundsAt, OffsetsFullWidth;
    SteadyRunIsFast(m, s, bits, ids, ring, nets, events, cuts[|cuts| - 1], b);
    HopBound(m, bits, ring, s, nets[b], v, n, key);
    LookupsAgree(m, ring, s, nets[b], v, v, n, key);
  }

  lemma SettledIsSteady(
    m: int, s: nat, bits: nat, ids: seq<Id>, ring: seq<Id>, nets: seq<Net>, events: seq<Event>, cuts: seq<nat>)
    requires Run(m, s, bits, ids, nets, events) && |nets| == |events| + 1 && RoundsAt(ring, events, cuts)
    requires SortedRing(m, ring) && (forall x :: x in nets[cuts[0]] <==> x in ring) && AtRest(m, s, nets[cuts[0]])
    requires s <= |ring| - 1 && s <= |cuts| && forall w {:trigger OffsetsFullWidth(m, bits, w)} :: w in ring ==> OffsetsFullWidth(m, bits, w)
    ensures Steady(m, s, bits, Members(ids), ring, nets[cuts[|cuts| - 1]])
  {
    RunKeepsInv(m, s, bits, ids, nets, events, cuts[0]);
    AtRestIffIdeal(m, s, bits, ids, nets, events, cuts[0], ring);
    hide Run, Inv, AtRest, IsIdealRing, OffsetsFullWidth;
    RoundsExtend(m, s, bits, ids, ring, nets, events, cuts, |cuts| - 1);
    FewerRight(ring, nets[cuts[|cuts| - 1]], |cuts|, s);
  }

  lemma FewerRight(ring: seq<Id>, net: Net, d: nat, d': nat)
    requires AllRight(ring, net, d) && d' <= d
    ensures AllRight(ring, net, d')
  {
    forall i: nat | i < |ring| ensures ListRight(ring, net, i, d') {
      assert ListRight(ring, net, i, d);
    }
  }
}
