/** The routing state of the nodes on a ring (chord.go: localVnode). */
module Nodes {
  import opened Wrappers
  import opened RingMath

  type Id = int

  /** The routing fields of a localVnode. */
  datatype Node = Node(
    successors: seq<Option<Id>>,
    predecessor: Option<Id>,
    finger: seq<Option<Id>>,
    lastFinger: nat)

  /** The nodes of a ring by id. */
  type Net = map<Id, Node>

  /** Nil slots only at the end. */
  ghost predicate Contiguous(list: seq<Option<Id>>) {
    forall i, j :: 0 <= i < j < |list| && list[j].Some? ==> list[i].Some?
  }

  /** Every filled slot names a member of the ring. */
  ghost predicate AllMembers(members: set<Id>, list: seq<Option<Id>>) {
    forall x :: Some(x) in list ==> x in members
  }

  ghost predicate WellFormedNode(members: set<Id>, s: nat, node: Node) {
    && |node.successors| == s >= 1
    && node.successors[0].Some?
    && Contiguous(node.successors)
    && AllMembers(members, node.successors)
    && AllMembers(members, node.finger)
  }

  /** A ring of size m whose nodes keep s >= 1 successor slots, the first filled, and know only members. */
  ghost predicate WellFormed(m: int, s: nat, net: Net) {
    && s >= 1
    && (forall v :: v in net ==> OnCircle(m, v))
    && (forall v :: v in net ==> WellFormedNode(net.Keys, s, net[v]))
  }

  lemma SlotOf(members: set<Id>, list: seq<Option<Id>>, i: nat)
    requires AllMembers(members, list) && i < |list| && list[i].Some?
    ensures list[i].value in members
  {
    var x := list[i].value;
    assert list[i] == Some(x);
    assert Some(x) in list;
  }

  /** A filled slot of a node names a member. */
  lemma SlotIsMember(m: int, s: nat, net: Net, v: Id, i: nat)
    requires WellFormed(m, s, net) && v in net
    ensures i < |net[v].successors| && net[v].successors[i].Some? ==> net[v].successors[i].value in net
    ensures i < |net[v].finger| && net[v].finger[i].Some? ==> net[v].finger[i].value in net
  {
    if i < |net[v].successors| && net[v].successors[i].Some? {
      SlotOf(net.Keys, net[v].successors, i);
    }
    if i < |net[v].finger| && net[v].finger[i].Some? {
      SlotOf(net.Keys, net[v].finger, i);
    }
  }

  /** successors[0]. */
  function Succ(net: Net, v: Id): Id
    requires v in net && |net[v].successors| > 0 && net[v].successors[0].Some?
  {
    net[v].successors[0].value
  }

  /** `knownSuccessors`: one past the last filled slot. */
  function Known(list: seq<Option<Id>>): (k: nat)
    ensures k <= |list|
    ensures k > 0 ==> list[k - 1].Some?
    ensures forall i :: k <= i < |list| ==> list[i].None?
  {
    if list == [] then 0
    else if list[|list| - 1].Some? then |list|
    else Known(list[..|list| - 1])
  }

  /** The list holds the nodes that follow the i-th one in ring order, as far as it is filled. */
  ghost predicate FollowsRing(ring: seq<Id>, i: int, list: seq<Option<Id>>)
    requires 0 <= i < |ring|
  {
    forall j :: 0 <= j < |list| && list[j].Some? ==> j < |ring| - 1 && list[j].value == At(ring, i + 1 + j)
  }

  /** The members of the sorted ring are the nodes, and each node's successors are a prefix of ring order. */
  ghost predicate IdealLists(m: int, ring: seq<Id>, s: nat, net: Net) {
    && WellFormed(m, s, net)
    && SortedRing(m, ring)
    && (forall x :: x in net <==> x in ring)
    && (forall i {:trigger FollowsRing(ring, i, net[ring[i]].successors)} :: 0 <= i < |ring| ==>
         FollowsRing(ring, i, net[ring[i]].successors))
  }

  lemma IndexOf(ring: seq<Id>, x: Id) returns (i: nat)
    requires x in ring
    ensures i < |ring| && ring[i] == x
  {
    i :| 0 <= i < |ring| && ring[i] == x;
  }

  /** Distances from a node grow along the ring until the walk comes back to it. */
  lemma WalkGrows(m: int, ring: seq<Id>, i: nat, j: nat, k: nat)
    requires SortedRing(m, ring) && i < |ring| && j < k < |ring|
    ensures 0 <= Dist(m, ring[i], At(ring, i + j)) < Dist(m, ring[i], At(ring, i + k))
  {
  }
}
