/**
 * Successor lists on a ring whose first successors and predecessors are ideal: every round
 * of notifications makes one more slot of every list right (vnode.go: notifySuccessor).
 */
module Settling {
  import opened Wrappers
  import opened RingMath
  import opened Nodes
  import opened Vnodes
  import opened Stabilise
  import Links
  import Lookup

  /** The first d slots, as far as there are that many slots and other nodes, name the nodes that follow the i-th. */
  ghost predicate RightTo(ring: seq<Id>, i: nat, list: seq<Option<Id>>, d: nat)
    requires i < |ring|
  {
    forall j: nat {:trigger list[j]} :: j < d && j < |list| && j < |ring| - 1 ==> list[j] == Some(At(ring, i + 1 + j))
  }

  /** The index after i. */
  function After(n: nat, i: nat): (k: nat)
    requires i < n
    ensures k < n
  {
    if i + 1 == n then 0 else i + 1
  }

  lemma AfterShifts(m: int, ring: seq<Id>, i: nat, j: nat)
    requires SortedRing(m, ring) && i < |ring| && j + 1 < |ring|
    ensures At(ring, After(|ring|, i) + j) == At(ring, i + 1 + j)
    ensures At(ring, i + 1 + j) != ring[i]
  {
    var n := |ring|;
    var k := if i + 1 + j < n then i + 1 + j else i + 1 + j - n;
    assert At(ring, i + 1 + j) == ring[k] && k != i;
    assert ring[k] < ring[i] || ring[i] < ring[k];
  }

  /** A list taken over from a successor whose list is right for d slots is right for one more. */
  lemma AdoptedIsRight(m: int, ring: seq<Id>, i: nat, own: seq<Option<Id>>, theirs: seq<Option<Id>>, d: nat)
    requires SortedRing(m, ring) && i < |ring| && |own| == |theirs| > 0
    requires own[0] == Some(At(ring, i + 1)) && RightTo(ring, After(|ring|, i), theirs, d)
    ensures RightTo(ring, i, AdoptedList(ring[i], own, theirs), d + 1)
  {
    var v, n, room := ring[i], |ring|, |own| - 1;
    var k := TakenPrefix(v, theirs, room, 0);
    var r := AdoptedList(v, own, theirs);
    forall t: nat | t < d && t < |theirs| && t + 2 < n ensures theirs[t] !in {None, Some(v)} {
      AfterShifts(m, ring, i, t + 1);
      assert theirs[t] == Some(At(ring, After(n, i) + 1 + t));
    }
    forall j: nat | 1 <= j < d + 1 && j < |r| && j < n - 1 ensures r[j] == Some(At(ring, i + 1 + j)) {
      AfterShifts(m, ring, i, j);
      assert theirs[j - 1] == Some(At(ring, After(n, i) + 1 + (j - 1)));
      assert k >= j;
      assert r[j] == theirs[j - 1];
    }
  }

  // ---------- the steps of a ring at rest ----------

  /** A reachable state of the ring at rest. */
  ghost predicate Resting(m: int, s: nat, bits: nat, core: set<Id>, ring: seq<Id>, net: Net) {
    && Inv(m, s, bits, core, net) && SortedRing(m, ring) && (forall x :: x in net <==> x in ring)
    && WellFormed(m, s, net) && IsIdealRing(m, s, ring, net)
  }

  ghost predicate ListRight(ring: seq<Id>, net: Net, i: nat, d: nat)
    requires i < |ring|
  {
    ring[i] in net && RightTo(ring, i, net[ring[i]].successors, d)
  }

  /** Every list is right for d slots. */
  ghost predicate AllRight(ring: seq<Id>, net: Net, d: nat) {
    forall i: nat {:trigger ListRight(ring, net, i, d)} :: i < |ring| ==> ListRight(ring, net, i, d)
  }

  lemma RestingNode(m: int, s: nat, bits: nat, core: set<Id>, ring: seq<Id>, net: Net, i: nat)
    requires Resting(m, s, bits, core, ring, net) && i < |ring|
    ensures var v := ring[i];
            && v in net && |net[v].successors| == s > 0 && net[v].successors[0].Some? && Contiguous(net[v].successors)
            && Succ(net, v) == At(ring, i + 1) == ring[After(|ring|, i)] && Succ(net, v) in net && Succ(net, v) != v
            && net[Succ(net, v)].predecessor == Some(v)
    ensures ListRight(ring, net, i, 1)
  {
    assert IdealAt(m, s, ring, net, i);
    AfterShifts(m, ring, i, 0);
  }

  lemma RestStays(m: int, s: nat, bits: nat, core: set<Id>, ring: seq<Id>, net: Net, net': Net)
    requires Resting(m, s, bits, core, ring, net) && Inv(m, s, bits, core, net') && net'.Keys == net.Keys
    requires Project(net') == Project(net)
    ensures Resting(m, s, bits, core, ring, net')
  {
    assert forall x :: x in net' <==> x in net'.Keys;
    assert forall x :: x in net <==> x in net.Keys;
    IdealProjection(m, s, bits, core, net, ring);
    IdealProjection(m, s, bits, core, net', ring);
  }

  /** A check finds nothing to change. */
  lemma CheckIdles(m: int, s: nat, bits: nat, core: set<Id>, ring: seq<Id>, net: Net, i: nat)
    requires Resting(m, s, bits, core, ring, net) && i < |ring|
    ensures ring[i] in net && Stabilise.Checked(m, s, net, ring[i]) == net
  {
    var v := ring[i];
    RestingNode(m, s, bits, core, ring, net, i);
    var list, peers := net[v].successors, AllPeers(net);
    Lookup.KnownIsFilled(list);
    FirstIsKnown(list);
    assert LeadingDead(list, peers, 0) == 0;
    assert SkipDead(list, peers) == list;
    assert CheckedList(v, list, peers) == list;
  }

  /** A notification makes one list right for one slot more than the successor's, and touches no other. */
  lemma NotifyExtends(m: int, s: nat, bits: nat, core: set<Id>, ring: seq<Id>, net: Net, i: nat, d: nat)
    requires Resting(m, s, bits, core, ring, net) && i < |ring| && ListRight(ring, net, After(|ring|, i), d)
    ensures ring[i] in net && Succ(net, ring[i]) in net && Succ(net, ring[i]) != ring[i]
    ensures ListRight(ring, Notified(m, s, net, ring[i]), i, d + 1)
    ensures forall w :: w in net && w != ring[i] ==>
              w in Notified(m, s, net, ring[i]) && Notified(m, s, net, ring[i])[w].successors == net[w].successors
  {
    RestingNode(m, s, bits, core, ring, net, i);
    RestingNode(m, s, bits, core, ring, net, After(|ring|, i));
    AdoptedIsRight(m, ring, i, net[ring[i]].successors, net[Succ(net, ring[i])].successors, d);
    hide Resting, AdoptedList, RightTo, At, SortedRing;
  }

  /** Steps without a join keep the ring at rest. */
  lemma StepRests(m: int, s: nat, bits: nat, core: set<Id>, ring: seq<Id>, net: Net, e: Event)
    requires Resting(m, s, bits, core, ring, net) && Enabled(m, s, bits, net, e) && !e.Join?
    ensures Resting(m, s, bits, core, ring, Apply(m, s, bits, net, e))
  {
    var net' := Apply(m, s, bits, net, e);
    StepKeepsInv(m, s, bits, core, net, e);
    IdealProjection(m, s, bits, core, net, ring);
    match e
    case CheckNewSuccessor(v) =>
      CheckRefines(m, s, bits, core, net, v);
      Links.IdealIsQuiescent(m, Project(net), v);
      RestStays(m, s, bits, core, ring, net, net');
    case NotifySuccessor(v) =>
      NotifyRefines(m, s, bits, core, net, v);
      Links.IdealIsQuiescent(m, Project(net), v);
      RestStays(m, s, bits, core, ring, net, net');
    case FixFingerTable(v) =>
      FixRefines(m, s, bits, net, v);
      RestStays(m, s, bits, core, ring, net, net');
  }

  /** A step without a join: all lists stay right for d slots, and the notifying node's for one more. */
  lemma StepExtends(m: int, s: nat, bits: nat, core: set<Id>, ring: seq<Id>, net: Net, e: Event, d: nat, i: nat)
    requires Resting(m, s, bits, core, ring, net) && Enabled(m, s, bits, net, e) && !e.Join?
    requires AllRight(ring, net, d) && i < |ring|
    ensures var net' := Apply(m, s, bits, net, e);
            && ListRight(ring, net', i, d)
            && (e == NotifySuccessor(ring[i]) || ListRight(ring, net, i, d + 1) ==> ListRight(ring, net', i, d + 1))
  {
    assert ListRight(ring, net, i, d);
    hide Inv, Sized, IsIdealRing, RightTo, AdoptedList, SortedRing;
    match e
    case CheckNewSuccessor(v) =>
      var k := IndexOf(ring, v);
      CheckIdles(m, s, bits, core, ring, net, k);
    case NotifySuccessor(v) =>
      var k := IndexOf(ring, v);
      assert ListRight(ring, net, After(|ring|, k), d);
      NotifyExtends(m, s, bits, core, ring, net, k, d);
      MoreIsRight(ring, Notified(m, s, net, v), k, d);
    case FixFingerTable(v) =>
  }

  lemma MoreIsRight(ring: seq<Id>, net: Net, i: nat, d: nat)
    requires i < |ring| && ListRight(ring, net, i, d + 1)
    ensures ListRight(ring, net, i, d)
  {
  }

  // ---------- rounds ----------

  /** The node notifies its successor at one of the steps from a up to b. */
  ghost predicate NotifiesIn(events: seq<Event>, v: Id, a: nat, b: nat) {
    exists k: nat {:trigger events[k]} :: a <= k < b && k < |events| && events[k] == NotifySuccessor(v)
  }

  ghost predicate NoJoinIn(events: seq<Event>, a: nat, b: nat) {
    a <= b <= |events| && forall k {:trigger events[k]} :: a <= k < b ==> !events[k].Join?
  }

  /** A round: every node notifies its successor at least once, among any other steps but joins. */
  ghost predicate RoundIn(ring: seq<Id>, events: seq<Event>, a: nat, b: nat) {
    NoJoinIn(events, a, b) && forall i: nat {:trigger ring[i]} :: i < |ring| ==> NotifiesIn(events, ring[i], a, b)
  }

  ghost predicate NotifiersRight(ring: seq<Id>, net: Net, events: seq<Event>, a: nat, b: nat, d: nat) {
    forall i: nat {:trigger ListRight(ring, net, i, d)} :: i < |ring| && NotifiesIn(events, ring[i], a, b) ==> ListRight(ring, net, i, d)
  }

  lemma OneMoreStep(m: int, s: nat, bits: nat, core: set<Id>, ring: seq<Id>, net: Net, events: seq<Event>, a: nat, j: nat, d: nat)
    requires a <= j < |events| && !events[j].Join? && Enabled(m, s, bits, net, events[j])
    requires Resting(m, s, bits, core, ring, net) && AllRight(ring, net, d) && NotifiersRight(ring, net, events, a, j, d + 1)
    ensures var net' := Apply(m, s, bits, net, events[j]);
            AllRight(ring, net', d) && NotifiersRight(ring, net', events, a, j + 1, d + 1)
  {
    var net' := Apply(m, s, bits, net, events[j]);
    hide Resting, ListRight, Apply, Enabled;
    forall i: nat | i < |ring|
      ensures ListRight(ring, net', i, d)
      ensures NotifiesIn(events, ring[i], a, j + 1) ==> ListRight(ring, net', i, d + 1) {
      StepExtends(m, s, bits, core, ring, net, events[j], d, i);
      if NotifiesIn(events, ring[i], a, j + 1) && events[j] != NotifySuccessor(ring[i]) {
        assert NotifiesIn(events, ring[i], a, j);
      }
    }
  }

  lemma {:induction false} WithinRound(
    m: int, s: nat, bits: nat, ids: seq<Id>, ring: seq<Id>, nets: seq<Net>, events: seq<Event>, a: nat, j: nat, d: nat)
    requires Run(m, s, bits, ids, nets, events) && a <= j && NoJoinIn(events, a, j) && |nets| == |events| + 1
    requires Resting(m, s, bits, Members(ids), ring, nets[a]) && AllRight(ring, nets[a], d)
    ensures Resting(m, s, bits, Members(ids), ring, nets[j]) && AllRight(ring, nets[j], d)
    ensures NotifiersRight(ring, nets[j], events, a, j, d + 1)
    decreases j
  {
    hide Resting, AllRight, Apply, Enabled, ListRight, LocallyBuilt;
    if j > a {
      WithinRound(m, s, bits, ids, ring, nets, events, a, j - 1, d);
      assert StepAt(m, s, bits, nets, events, j - 1);
      StepRests(m, s, bits, Members(ids), ring, nets[j - 1], events[j - 1]);
      OneMoreStep(m, s, bits, Members(ids), ring, nets[j - 1], events, a, j - 1, d);
    }
  }

  lemma RoundExtends(m: int, s: nat, bits: nat, ids: seq<Id>, ring: seq<Id>, nets: seq<Net>, events: seq<Event>, a: nat, b: nat, d: nat)
    requires Run(m, s, bits, ids, nets, events) && a <= b && RoundIn(ring, events, a, b) && |nets| == |events| + 1
    requires Resting(m, s, bits, Members(ids), ring, nets[a]) && AllRight(ring, nets[a], d)
    ensures Resting(m, s, bits, Members(ids), ring, nets[b]) && AllRight(ring, nets[b], d + 1)
  {
    hide Resting, Run, ListRight, NotifiesIn;
    WithinRound(m, s, bits, ids, ring, nets, events, a, b, d);
  }

  /** Consecutive rounds, from each cut to the next. */
  ghost predicate RoundsAt(ring: seq<Id>, events: seq<Event>, cuts: seq<nat>) {
    && cuts != [] && (forall k {:trigger cuts[k]} :: 0 <= k < |cuts| ==> cuts[k] <= |events|)
    && forall k: nat {:trigger RoundIn(ring, events, cuts[k], cuts[k + 1])} :: k + 1 < |cuts| ==>
         cuts[k] <= cuts[k + 1] && RoundIn(ring, events, cuts[k], cuts[k + 1])
  }

  lemma {:induction false} RoundsExtend(
    m: int, s: nat, bits: nat, ids: seq<Id>, ring: seq<Id>, nets: seq<Net>, events: seq<Event>, cuts: seq<nat>, t: nat)
    requires Run(m, s, bits, ids, nets, events) && |nets| == |events| + 1 && RoundsAt(ring, events, cuts) && t < |cuts|
    requires Resting(m, s, bits, Members(ids), ring, nets[cuts[0]])
    ensures Resting(m, s, bits, Members(ids), ring, nets[cuts[t]]) && AllRight(ring, nets[cuts[t]], t + 1)
    decreases t
  {
    if t == 0 {
      forall i: nat | i < |ring| ensures ListRight(ring, nets[cuts[0]], i, 1) {
        RestingNode(m, s, bits, Members(ids), ring, nets[cuts[0]], i);
      }
    } else {
      hide Resting, Run, ListRight, AllRight;
      RoundsExtend(m, s, bits, ids, ring, nets, events, cuts, t - 1);
      assert RoundIn(ring, events, cuts[t - 1], cuts[(t - 1) + 1]);
      RoundExtends(m, s, bits, ids, ring, nets, events, cuts[t - 1], cuts[t], t);
    }
  }

  /**
   * In a run that has come to rest, t rounds of notifications later the first t + 1 slots of
   * every successor list, as far as it has them and there are other nodes, are the nodes
   * that follow in ring order.
   */
  lemma ListsSettle(m: int, s: nat, bits: nat, ids: seq<Id>, ring: seq<Id>, nets: seq<Net>, events: seq<Event>, cuts: seq<nat>, i: nat)
    requires Run(m, s, bits, ids, nets, events) && |nets| == |events| + 1 && RoundsAt(ring, events, cuts)
    requires SortedRing(m, ring) && (forall x :: x in nets[cuts[0]] <==> x in ring) && AtRest(m, s, nets[cuts[0]]) && i < |ring|
    ensures var net := nets[cuts[|cuts| - 1]];
            && ring[i] in net
            && forall j: nat {:trigger net[ring[i]].successors[j]} ::
                 j < |cuts| && j < |net[ring[i]].successors| && j < |ring| - 1 ==>
                   net[ring[i]].successors[j] == Some(At(ring, i + 1 + j))
  {
    RunKeepsInv(m, s, bits, ids, nets, events, cuts[0]);
    AtRestIffIdeal(m, s, bits, ids, nets, events, cuts[0], ring);
    hide Run, Inv, AtRest, IsIdealRing;
    RoundsExtend(m, s, bits, ids, ring, nets, events, cuts, |cuts| - 1);
    assert ListRight(ring, nets[cuts[|cuts| - 1]], i, |cuts|);
  }

  /** With no more slots than other nodes, as many rounds as slots (less one) make every list a prefix of ring order. */
  lemma ListsBecomeIdeal(m: int, s: nat, bits: nat, ids: seq<Id>, ring: seq<Id>, nets: seq<Net>, events: seq<Event>, cuts: seq<nat>)
    requires Run(m, s, bits, ids, nets, events) && |nets| == |events| + 1 && RoundsAt(ring, events, cuts)
    requires SortedRing(m, ring) && (forall x :: x in nets[cuts[0]] <==> x in ring) && AtRest(m, s, nets[cuts[0]])
    requires s <= |ring| - 1 && s <= |cuts|
    ensures IdealLists(m, ring, s, nets[cuts[|cuts| - 1]])
  {
    RunKeepsInv(m, s, bits, ids, nets, events, cuts[0]);
    AtRestIffIdeal(m, s, bits, ids, nets, events, cuts[0], ring);
    hide Run, Inv, AtRest, IsIdealRing;
    RoundsExtend(m, s, bits, ids, ring, nets, events, cuts, |cuts| - 1);
    FullIsIdeal(m, s, bits, Members(ids), ring, nets[cuts[|cuts| - 1]], |cuts|);
  }

  lemma FullIsIdeal(m: int, s: nat, bits: nat, core: set<Id>, ring: seq<Id>, net: Net, d: nat)
    requires Resting(m, s, bits, core, ring, net) && AllRight(ring, net, d) && s <= |ring| - 1 && s <= d
    ensures IdealLists(m, ring, s, net)
  {
    forall i | 0 <= i < |ring| ensures ring[i] in net && FollowsRing(ring, i, net[ring[i]].successors) {
      RestingNode(m, s, bits, core, ring, net, i);
      assert ListRight(ring, net, i, d);
    }
    hide Inv, IsIdealRing, FollowsRing, ListRight, WellFormedNode;
  }
}
