/** A node that leaves an ideal ring (vnode.go: leave, SkipSuccessor, ClearPredecessor). */
module Leaving {
  import opened Wrappers
  import opened RingMath
  import opened Nodes
  import Vnodes

  /** The node and those it talks to are there, each with a first successor. */
  ghost predicate Leavable(net: Net, v: Id) {
    && v in net
    && (forall x :: x in net ==> |net[x].successors| > 0 && net[x].successors[0].Some? && Contiguous(net[x].successors))
    && Succ(net, v) in net && Succ(net, v) != v
    && (net[v].predecessor.Some? ==> net[v].predecessor.value in net)
  }

  /** `leave`: the predecessor skips the node, the successor forgets it, and it is gone. */
  function Left(net: Net, v: Id): Net
    requires Leavable(net, v)
  {
    var succ := Succ(net, v);
    var skipped :=
      if net[v].predecessor.None? then net
      else
        var p := net[v].predecessor.value;
        net[p := net[p].(successors := Vnodes.SkippedList(net[p].successors, v))];
    skipped[succ := skipped[succ].(predecessor := Vnodes.Cleared(skipped[succ].predecessor, v))] - {v}
  }

  /** The net once the old predecessor has notified the old successor. */
  function Healed(net: Net, v: Id): Net
    requires Leavable(net, v) && net[v].predecessor.Some?
  {
    var left, s := Left(net, v), Succ(net, v);
    left[s := left[s].(predecessor := Vnodes.NotifiedPredecessor(s, left[s].predecessor, net[v].predecessor.value))]
  }

  /** Only the leaving node goes, only its predecessor skips it and only its successor forgets it, if it knew it. */
  lemma LeftNode(net: Net, v: Id, x: Id)
    requires Leavable(net, v)
    ensures x in Left(net, v) <==> x in net && x != v
    ensures x in Left(net, v) ==>
      var succ := Succ(net, v);
      Left(net, v)[x] == net[x].(
        successors := if net[v].predecessor == Some(x) then Vnodes.SkippedList(net[x].successors, v) else net[x].successors,
        predecessor := if x == succ && net[x].predecessor == Some(v) then None else net[x].predecessor)
  {
  }

  /** What is left of each node. */
  lemma HealedNode(net: Net, v: Id, x: Id)
    requires Leavable(net, v) && net[v].predecessor.Some? && net[v].predecessor.value !in {v, Succ(net, v)}
    requires net[Succ(net, v)].predecessor == Some(v)
    ensures x in Healed(net, v) <==> x in net && x != v
    ensures x in Healed(net, v) ==>
      && Healed(net, v)[x].successors ==
           (if x == net[v].predecessor.value then Vnodes.SkippedList(net[x].successors, v) else net[x].successors)
      && Healed(net, v)[x].predecessor == (if x == Succ(net, v) then net[v].predecessor else net[x].predecessor)
  {
  }

  /** The i-th node's first successor and predecessor are its neighbours. */
  ghost predicate Linked(ring: seq<Id>, net: Net, i: nat)
    requires i < |ring|
  {
    && ring[i] in net && At(ring, i + 1) in net
    && |net[ring[i]].successors| > 0 && net[ring[i]].successors[0] == Some(At(ring, i + 1))
    && net[At(ring, i + 1)].predecessor == Some(ring[i])
  }

  /** Every member of the sorted ring is linked to its neighbours, and its list follows ring order. */
  ghost predicate IdealRing(m: int, ring: seq<Id>, net: Net) {
    && SortedRing(m, ring)
    && (forall x :: x in net <==> x in ring)
    && (forall i: nat {:trigger Linked(ring, net, i)} :: i < |ring| ==> Linked(ring, net, i))
    && (forall i {:trigger FollowsRing(ring, i, net[ring[i]].successors)} :: 0 <= i < |ring| ==>
         Contiguous(net[ring[i]].successors) && FollowsRing(ring, i, net[ring[i]].successors))
  }

  /** The ring without its i-th node. */
  function Without(ring: seq<Id>, i: nat): (r: seq<Id>)
    requires i < |ring|
    ensures |r| == |ring| - 1
    ensures forall j :: 0 <= j < |r| ==> r[j] == ring[if j < i then j else j + 1]
  {
    ring[..i] + ring[i + 1..]
  }

  /** The index before i on a ring of n nodes. */
  function Before(n: nat, i: nat): (q: nat)
    requires i < n
    ensures q < n
  {
    if i == 0 then n - 1 else i - 1
  }

  /** Neighbours stay neighbours, but that the leaving node's predecessor is followed by its successor. */
  lemma WithoutNext(ring: seq<Id>, i: nat, j: nat)
    requires |ring| >= 3 && i < |ring| && j < |ring| - 1
    ensures var q := if j < i then j else j + 1;
            At(Without(ring, i), j + 1) == if q == Before(|ring|, i) then At(ring, i + 1) else At(ring, q + 1)
  {
  }

  lemma LeavingNeighbours(m: int, ring: seq<Id>, net: Net, i: nat)
    requires IdealRing(m, ring, net) && |ring| >= 3 && i < |ring|
    ensures var v, q := ring[i], ring[Before(|ring|, i)];
            && v in net && q in net && q != v && At(ring, i + 1) in net && At(ring, i + 1) != v && At(ring, i + 1) != q
            && net[v].predecessor == Some(q) && net[At(ring, i + 1)].predecessor == Some(v)
            && |net[v].successors| > 0 && net[v].successors[0] == Some(At(ring, i + 1))
            && |net[q].successors| > 0 && net[q].successors[0] == Some(v)
    ensures Leavable(net, ring[i])
  {
    assert Linked(ring, net, i) && Linked(ring, net, Before(|ring|, i));
    forall x | x in net ensures |net[x].successors| > 0 && net[x].successors[0].Some? && Contiguous(net[x].successors) {
      var j := IndexOf(ring, x);
      assert Linked(ring, net, j) && FollowsRing(ring, j, net[ring[j]].successors);
    }
  }

  /**
   * The predecessor finds the next node on exactly when it knew two successors; with one
   * slot or one entry it is left without any.
   */
  lemma SkipsToNextIff(m: int, ring: seq<Id>, net: Net, i: nat)
    requires IdealRing(m, ring, net) && |ring| >= 3 && i < |ring|
    requires Leavable(net, ring[i])
    ensures var list := net[ring[Before(|ring|, i)]].successors;
            var skipped := Vnodes.SkippedList(list, ring[i]);
            && (skipped[0] == Some(At(ring, i + 1)) <==> Known(list) >= 2)
            && (skipped[0] == None <==> Known(list) == 1)
  {
    var q := Before(|ring|, i);
    LeavingNeighbours(m, ring, net, i);
    var list := net[ring[q]].successors;
    assert FollowsRing(ring, q, list);
    assert At(ring, q + 1) == ring[i] && At(ring, i + 1) == At(ring, q + 2);
    KnownTwo(list);
  }

  lemma KnownTwo(list: seq<Option<Id>>)
    requires |list| > 0 && list[0].Some? && Contiguous(list)
    ensures Known(list) >= 1
    ensures Known(list) >= 2 <==> |list| >= 2 && list[1].Some?
  {
  }

  /** The j-th node of the remaining ring. */
  lemma HealedLinks(m: int, ring: seq<Id>, net: Net, i: nat, j: nat)
    requires IdealRing(m, ring, net) && |ring| >= 3 && i < |ring| && j < |ring| - 1
    requires Leavable(net, ring[i]) && net[ring[i]].predecessor.Some? && Known(net[ring[Before(|ring|, i)]].successors) >= 2
    ensures Linked(Without(ring, i), Healed(net, ring[i]), j)
  {
    LeavingNeighbours(m, ring, net, i);
    SkipsToNextIff(m, ring, net, i);
    WithoutNext(ring, i, j);
    var k := if j < i then j else j + 1;
    assert Linked(ring, net, k) && Linked(ring, net, i);
    NextDistinct(m, ring, k, i);
    NextDistinct(m, ring, k, Before(|ring|, i));
    HealedNode(net, ring[i], ring[k]);
    HealedNode(net, ring[i], At(Without(ring, i), j + 1));
    assert Without(ring, i)[j] == ring[k];
    NextDistinct(m, ring, Before(|ring|, i), k);
    assert At(ring, Before(|ring|, i) + 1) == ring[i];
    hide IdealRing, Vnodes.SkippedList, Known, Without, Leavable, Healed, SortedRing, At;
  }

  /** Different nodes have different successors. */
  lemma NextDistinct(m: int, ring: seq<Id>, a: nat, b: nat)
    requires SortedRing(m, ring) && a < |ring| && b < |ring|
    ensures ring[a] == ring[b] <==> a == b
    ensures At(ring, a + 1) == At(ring, b + 1) <==> a == b
  {
  }

  /**
   * When the leaving node's predecessor knew two successors, the first successors and
   * predecessors of the remaining nodes are the ideal ring's again as soon as it notified
   * its new successor once; later slots may still name the node that left.
   */
  lemma LeaveKeepsRing(m: int, ring: seq<Id>, net: Net, i: nat)
    requires IdealRing(m, ring, net) && |ring| >= 3 && i < |ring|
    requires Known(net[ring[Before(|ring|, i)]].successors) >= 2
    ensures Leavable(net, ring[i]) && net[ring[i]].predecessor.Some?
    ensures var rest, healed := Without(ring, i), Healed(net, ring[i]);
            && SortedRing(m, rest)
            && (forall x :: x in healed <==> x in rest)
            && (forall j: nat {:trigger Linked(rest, healed, j)} :: j < |rest| ==> Linked(rest, healed, j))
  {
    LeavingNeighbours(m, ring, net, i);
    var rest, healed := Without(ring, i), Healed(net, ring[i]);
    forall j: nat | j < |rest| ensures Linked(rest, healed, j) {
      HealedLinks(m, ring, net, i, j);
    }
    forall x ensures x in healed <==> x in rest {
      HealedNode(net, ring[i], x);
      WithoutMembers(m, ring, i, x);
    }
    hide Healed, Leavable, Linked, FollowsRing;
  }

  lemma WithoutMembers(m: int, ring: seq<Id>, i: nat, x: Id)
    requires SortedRing(m, ring) && i < |ring|
    ensures x in Without(ring, i) <==> x in ring && x != ring[i]
  {
  }
}
