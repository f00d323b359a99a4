/** Finger repair on an ideal ring: fixFingerTable of vnode.go with powerOffset of util.go. */
module Fingers {
  import opened Wrappers
  import opened RingMath
  import opened Nodes
  import opened Lookup
  import opened Hops
  import opened Vnodes

  /** The key that v looks up to repair finger i. */
  function FingerKey(m: int, v: Id, i: nat): int {
    KeyOf(m, Offset(m, v, i))
  }

  /** No finger offset of v starts with a zero byte. */
  ghost predicate OffsetsFullWidth(m: int, bits: nat, v: Id) {
    forall i :: 0 <= i < bits ==> FullWidth(m, Offset(m, v, i))
  }

  /** `fixFingerTable` run by node v: look the offset up, then write the entries. */
  ghost function FixAt(m: int, s: nat, net: Net, v: Id): (net': Net)
    requires WellFormed(m, s, net) && v in net && net[v].lastFinger < |net[v].finger|
    requires OnCircle(m, FingerKey(m, v, net[v].lastFinger))
    ensures net'.Keys == net.Keys
    ensures net'[v] == net[v].(finger := net'[v].finger, lastFinger := net'[v].lastFinger)
    ensures |net'[v].finger| == |net[v].finger| && net'[v].lastFinger < |net[v].finger|
    ensures forall w :: w in net && w != v ==> net'[w] == net[w]
  {
    var r := Find(m, s, net, net.Keys, v, 1, FingerKey(m, v, net[v].lastFinger)).reply;
    if r.Ok? && r.value[0].Some? then net[v := FixedNode(m, v, net[v], r.value[0].value)] else net
  }

  lemma FingerKeyOnCircle(m: int, bits: nat, v: Id, i: nat)
    requires OnCircle(m, v) && m == Pow2(bits) && i < bits
    ensures OnCircle(m, Offset(m, v, i)) && OnCircle(m, FingerKey(m, v, i)) && Offset(m, v, i) != v
  {
    Pow2Strict(i, bits);
    KeyOfOnCircle(m, Offset(m, v, i));
  }

  /** A node found for one finger is also right for a later one whose offset it still covers. */
  lemma SameNodeCoversLater(m: int, bits: nat, ring: seq<Id>, v: Id, i: nat, j: nat)
    requires SortedRing(m, ring) && v in ring && m == Pow2(bits) && i <= j < bits
    requires i < j ==> BetweenRightIncl(v, TrueFinger(m, ring, v, i), Offset(m, v, j))
    ensures TrueFinger(m, ring, v, j) == TrueFinger(m, ring, v, i)
  {
    if i < j {
      var f, g := TrueFinger(m, ring, v, i), TrueFinger(m, ring, v, j);
      Pow2Strict(i, bits);
      Pow2Strict(j, bits);
      Pow2Monotone(i, j);
      OffsetDistances(m, v, j, f);
      OffsetDistances(m, v, j, Offset(m, v, j));
      FingerPosition(m, ring, v, j, f);
      FingerPosition(m, ring, v, i, g);
    }
  }

  /**
   * Every entry that a repair writes, the skipped-ahead ones included, is the first node
   * at or after its offset, provided the offsets concerned have full width.
   */
  lemma RepairWritesTrueFingers(m: int, bits: nat, ring: seq<Id>, v: Id, last: nat, i: nat)
    requires SortedRing(m, ring) && v in ring && m == Pow2(bits) && last < bits
    requires last <= i <= LastFilled(m, v, TrueFinger(m, ring, v, last), bits, last)
    requires FullWidth(m, Offset(m, v, i))
    ensures TrueFinger(m, ring, v, i) == TrueFinger(m, ring, v, last)
  {
    if i > last {
      assert BetweenRightIncl(v, TrueFinger(m, ring, v, last), KeyOf(m, Offset(m, v, i)));
    }
    SameNodeCoversLater(m, bits, ring, v, last, i);
  }

  /** The repair's lookup finds the first node at or after the key it asks for. */
  lemma RepairFinds(m: int, bits: nat, ring: seq<Id>, s: nat, net: Net, v: Id)
    requires IdealLists(m, ring, s, net) && v in net && m == Pow2(bits)
    requires |net[v].finger| == bits && net[v].lastFinger < bits
    requires FingerKey(m, v, net[v].lastFinger) != v
    ensures OnCircle(m, FingerKey(m, v, net[v].lastFinger))
    ensures FixAt(m, s, net, v)[v]
         == FixedNode(m, v, net[v], ring[OwnerIndex(ring, FingerKey(m, v, net[v].lastFinger))])
  {
    FingerKeyOnCircle(m, bits, v, net[v].lastFinger);
    LookupsAgree(m, ring, s, net, v, v, 1, FingerKey(m, v, net[v].lastFinger));
  }

  ghost predicate RightUpTo(m: int, ring: seq<Id>, v: Id, finger: seq<Option<Id>>, n: nat)
    requires |ring| > 0
  {
    n <= |finger| && forall i :: 0 <= i < n ==> finger[i] == Some(TrueFinger(m, ring, v, i))
  }

  /** One repair extends the right prefix of the table and moves last_finger to its end, or to 0 when it is whole. */
  lemma RepairExtends(m: int, bits: nat, ring: seq<Id>, s: nat, net: Net, v: Id)
    requires IdealLists(m, ring, s, net) && v in net && m == Pow2(bits) && OffsetsFullWidth(m, bits, v)
    requires |net[v].finger| == bits && net[v].lastFinger < bits
    requires RightUpTo(m, ring, v, net[v].finger, net[v].lastFinger)
    ensures OnCircle(m, FingerKey(m, v, net[v].lastFinger))
    ensures var node := FixAt(m, s, net, v)[v];
            if node.lastFinger == 0 then RightUpTo(m, ring, v, node.finger, bits)
            else node.lastFinger > net[v].lastFinger && RightUpTo(m, ring, v, node.finger, node.lastFinger)
  {
    var last := net[v].lastFinger;
    FingerKeyOnCircle(m, bits, v, last);
    assert FingerKey(m, v, last) == Offset(m, v, last);
    RepairFinds(m, bits, ring, s, net, v);
    var f := TrueFinger(m, ring, v, last);
    var upto := LastFilled(m, v, f, bits, last);
    var finger' := FixedNode(m, v, net[v], f).finger;
    forall i | 0 <= i <= upto ensures finger'[i] == Some(TrueFinger(m, ring, v, i)) {
      if i >= last {
        RepairWritesTrueFingers(m, bits, ring, v, last, i);
      }
    }
  }

  lemma FixedFingersAreMembers(m: int, members: set<Id>, v: Id, node: Node, f: Id)
    requires AllMembers(members, node.finger) && f in members && node.lastFinger < |node.finger|
    ensures AllMembers(members, FixedNode(m, v, node, f).finger)
  {
    var finger := FixedNode(m, v, node, f).finger;
    forall x | Some(x) in finger ensures x in members {
      var i :| 0 <= i < |finger| && finger[i] == Some(x);
      if x != f {
        assert Some(x) in node.finger;
      }
    }
  }

  /** Successor lists are all an ideal ring asks for, besides known members. */
  lemma FingersMayChange(m: int, ring: seq<Id>, s: nat, net: Net, net': Net, v: Id)
    requires IdealLists(m, ring, s, net) && v in net && net'.Keys == net.Keys
    requires net'[v] == net[v].(finger := net'[v].finger, lastFinger := net'[v].lastFinger)
    requires (forall w :: w in net && w != v ==> net'[w] == net[w]) && AllMembers(net.Keys, net'[v].finger)
    ensures IdealLists(m, ring, s, net')
  {
    hide AllMembers, Contiguous;
    forall i | 0 <= i < |ring| ensures ring[i] in net' && FollowsRing(ring, i, net'[ring[i]].successors) {
      assert ring[i] in ring;
      assert FollowsRing(ring, i, net[ring[i]].successors);
    }
  }

  lemma FixKeepsIdeal(m: int, bits: nat, ring: seq<Id>, s: nat, net: Net, v: Id)
    requires IdealLists(m, ring, s, net) && v in net && m == Pow2(bits)
    requires |net[v].finger| == bits && net[v].lastFinger < bits
    requires FingerKey(m, v, net[v].lastFinger) != v
    ensures OnCircle(m, FingerKey(m, v, net[v].lastFinger))
    ensures IdealLists(m, ring, s, FixAt(m, s, net, v))
  {
    RepairFinds(m, bits, ring, s, net, v);
    FixedFingersAreMembers(m, net.Keys, v, net[v], ring[OwnerIndex(ring, FingerKey(m, v, net[v].lastFinger))]);
    hide FixAt, FixedNode, AllMembers, Contiguous, FollowsRing;
    FingersMayChange(m, ring, s, net, FixAt(m, s, net, v), v);
  }

  /** `calls` repairs in a row by node v. */
  ghost function Sweep(m: int, s: nat, net: Net, v: Id, calls: nat): Net {
    if calls == 0 then net
    else if WellFormed(m, s, net) && v in net && net[v].lastFinger < |net[v].finger|
         && OnCircle(m, FingerKey(m, v, net[v].lastFinger)) then
      Sweep(m, s, FixAt(m, s, net, v), v, calls - 1)
    else net
  }

  /** A sweep under way at v: the fingers below last_finger are right. */
  ghost predicate Sweeping(m: int, bits: nat, ring: seq<Id>, s: nat, net: Net, v: Id) {
    && IdealLists(m, ring, s, net) && v in net && m == Pow2(bits) && OffsetsFullWidth(m, bits, v)
    && |net[v].finger| == bits && net[v].lastFinger < bits
    && RightUpTo(m, ring, v, net[v].finger, net[v].lastFinger)
  }

  /** The state after one repair of a sweep. */
  ghost function SweepNext(m: int, bits: nat, ring: seq<Id>, s: nat, net: Net, v: Id): Net
    requires Sweeping(m, bits, ring, s, net, v)
  {
    FingerKeyOnCircle(m, bits, v, net[v].lastFinger);
    FixAt(m, s, net, v)
  }

  lemma SweepStep(m: int, bits: nat, ring: seq<Id>, s: nat, net: Net, v: Id)
    requires Sweeping(m, bits, ring, s, net, v)
    ensures var net' := SweepNext(m, bits, ring, s, net, v);
            && v in net && net[v].lastFinger < bits && v in net'
            && (net'[v].lastFinger == 0 ==> RightFingers(m, bits, ring, v, net'[v].finger))
            && (net'[v].lastFinger != 0 ==>
                  net[v].lastFinger < net'[v].lastFinger < bits && Sweeping(m, bits, ring, s, net', v))
  {
    FingerKeyOnCircle(m, bits, v, net[v].lastFinger);
    assert FullWidth(m, Offset(m, v, net[v].lastFinger));
    RepairExtends(m, bits, ring, s, net, v);
    FixKeepsIdeal(m, bits, ring, s, net, v);
    hide FixAt, IdealLists, RightUpTo, OffsetsFullWidth;
  }

  lemma SweepUnfolds(m: int, bits: nat, ring: seq<Id>, s: nat, net: Net, v: Id, calls: nat)
    requires Sweeping(m, bits, ring, s, net, v) && calls > 0
    ensures var net' := SweepNext(m, bits, ring, s, net, v);
            Sweep(m, s, net, v, calls) == if calls == 1 then net' else Sweep(m, s, net', v, calls - 1)
  {
    FingerKeyOnCircle(m, bits, v, net[v].lastFinger);
    hide FixAt, WellFormedNode, RightUpTo, OffsetsFullWidth, FollowsRing;
  }

  lemma {:induction false} SweepFrom(m: int, bits: nat, ring: seq<Id>, s: nat, net: Net, v: Id) returns (calls: nat)
    requires Sweeping(m, bits, ring, s, net, v)
    ensures v in net && 1 <= calls <= bits - net[v].lastFinger
    ensures var net' := Sweep(m, s, net, v, calls);
            v in net' && net'[v].lastFinger == 0 && RightFingers(m, bits, ring, v, net'[v].finger)
    decreases bits - net[v].lastFinger
  {
    hide *;
    SweepStep(m, bits, ring, s, net, v);
    var net' := SweepNext(m, bits, ring, s, net, v);
    if net'[v].lastFinger == 0 {
      calls := 1;
    } else {
      var more := SweepFrom(m, bits, ring, s, net', v);
      calls := more + 1;
    }
    SweepUnfolds(m, bits, ring, s, net, v, calls);
  }

  /**
   * Starting at finger 0, at most hashBits repairs bring last_finger back to 0 and leave
   * the whole table right.
   */
  lemma SweepRepairsTable(m: int, bits: nat, ring: seq<Id>, s: nat, net: Net, v: Id) returns (calls: nat)
    requires IdealLists(m, ring, s, net) && v in net && m == Pow2(bits) && OffsetsFullWidth(m, bits, v)
    requires |net[v].finger| == bits && bits > 0 && net[v].lastFinger == 0
    ensures 1 <= calls <= bits
    ensures var net' := Sweep(m, s, net, v, calls);
            v in net' && net'[v].lastFinger == 0 && RightFingers(m, bits, ring, v, net'[v].finger)
  {
    calls := SweepFrom(m, bits, ring, s, net, v);
  }
}
