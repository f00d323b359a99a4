/**
 * vnode.go: the steps a virtual node takes on its own routing state. Replies from other
 * nodes are parameters; `peers` maps each reachable node to the predecessor it reports,
 * and a node outside it fails every call.
 */
module Vnodes {
  import opened Wrappers
  import opened RingMath
  import opened Nodes
  import Lookup

  type Peers = map<Id, Option<Id>>

  datatype CheckResult = Checked | SuccessorUnreachable | AllKnownDead

  function Nils(n: nat): (r: seq<Option<Id>>)
    ensures |r| == n && forall i :: 0 <= i < n ==> r[i].None?
  {
    seq(n, _ => None)
  }

  // ---------- what each step does to the state ----------

  /** How many leading successors are dead, never counting the last known one. */
  function LeadingDead(list: seq<Option<Id>>, peers: Peers, i: nat): (d: nat)
    requires i < Known(list) && forall j :: 0 <= j < Known(list) ==> list[j].Some?
    ensures i <= d < Known(list)
    ensures forall j :: i <= j < d ==> list[j].value !in peers
    ensures d + 1 < Known(list) ==> list[d].value in peers
    decreases Known(list) - i
  {
    if i + 1 == Known(list) || list[i].value in peers then i else LeadingDead(list, peers, i + 1)
  }

  /** The list without its first d entries, nils filling up its end. */
  function Dropped(list: seq<Option<Id>>, d: nat): (r: seq<Option<Id>>)
    requires d < |list|
    ensures |r| == |list| && r[0] == list[d]
  {
    list[d..] + Nils(d)
  }

  /** The list with its leading dead entries gone, the rest in order, never emptied. */
  function SkipDead(list: seq<Option<Id>>, peers: Peers): (r: seq<Option<Id>>)
    requires |list| > 0 && list[0].Some? && Contiguous(list)
    ensures |r| == |list| && r[0].Some? && Contiguous(r)
  {
    Lookup.KnownIsFilled(list);
    FirstIsKnown(list);
    Dropped(list, LeadingDead(list, peers, 0))
  }

  lemma FirstIsKnown(list: seq<Option<Id>>)
    requires |list| > 0 && list[0].Some?
    ensures Known(list) > 0
  {
  }

  /** Puts a live node that lies between v and its successor in front. */
  function TakeCloser(v: Id, list: seq<Option<Id>>, peers: Peers): (r: seq<Option<Id>>)
    requires |list| > 0 && list[0].Some? && Contiguous(list)
    ensures |r| == |list| && r[0].Some? && Contiguous(r)
  {
    var succ := list[0].value;
    if succ in peers && peers[succ].Some? && Between(v, succ, peers[succ].value) && peers[succ].value in peers then
      [peers[succ]] + list[..|list| - 1]
    else list
  }

  /** `checkNewSuccessor` on the successor list. */
  function CheckedList(v: Id, list: seq<Option<Id>>, peers: Peers): (r: seq<Option<Id>>)
    requires |list| > 0 && list[0].Some? && Contiguous(list)
    ensures |r| == |list| && r[0].Some? && Contiguous(r)
  {
    TakeCloser(v, SkipDead(list, peers), peers)
  }

  /** `Notify` on the predecessor. */
  function NotifiedPredecessor(v: Id, predecessor: Option<Id>, caller: Id): Option<Id> {
    if predecessor.None? || Between(predecessor.value, v, caller) then Some(caller) else predecessor
  }

  /** How much of a successor's list a node takes over: up to a nil, itself, or the room it has. */
  function TakenPrefix(v: Id, list: seq<Option<Id>>, room: nat, i: nat): (k: nat)
    requires i <= |list| && i <= room
    ensures i <= k <= |list| && k <= room
    ensures forall j :: i <= j < k ==> list[j].Some? && list[j].value != v
    ensures k < |list| && k < room ==> list[k] in {None, Some(v)}
    decreases |list| - i
  {
    if i == |list| || i == room || list[i].None? || list[i].value == v then i
    else TakenPrefix(v, list, room, i + 1)
  }

  /** A list with the first k entries of another from its second slot on. */
  function Adopted(own: seq<Option<Id>>, theirs: seq<Option<Id>>, k: nat): (r: seq<Option<Id>>)
    requires k < |own| && k <= |theirs|
    ensures |r| == |own| && r[0] == own[0]
  {
    own[..1] + theirs[..k] + own[k + 1..]
  }

  /** `notifySuccessor` on the successor list, given the list the successor returned. */
  function AdoptedList(v: Id, own: seq<Option<Id>>, theirs: seq<Option<Id>>): (r: seq<Option<Id>>)
    requires |own| > 0
    ensures |r| == |own| && r[0] == own[0]
  {
    Adopted(own, theirs, TakenPrefix(v, theirs, |own| - 1, 0))
  }

  /** `ClearPredecessor` on the predecessor. */
  function Cleared(predecessor: Option<Id>, leaving: Id): Option<Id> {
    if predecessor == Some(leaving) then None else predecessor
  }

  /** `SkipSuccessor` on the successor list. */
  function SkippedList(list: seq<Option<Id>>, leaving: Id): (r: seq<Option<Id>>)
    requires |list| > 0 && list[0].Some? && Contiguous(list)
    ensures |r| == |list|
  {
    if list[0].value == leaving then list[1..] + [None] else list
  }

  lemma AdoptOneMore(own: seq<Option<Id>>, theirs: seq<Option<Id>>, i: nat)
    requires i < |theirs| && i + 1 < |own|
    ensures Adopted(own, theirs, i)[i + 1 := theirs[i]] == Adopted(own, theirs, i + 1)
  {
  }

  /** The last finger that `fixFingerTable` fills in one go with the node found for finger i. */
  function LastFilled(m: int, v: Id, node: Id, bits: nat, i: nat): (r: nat)
    requires i < bits
    ensures i <= r < bits
    ensures forall j :: i < j <= r ==> BetweenRightIncl(v, node, KeyOf(m, Offset(m, v, j)))
    ensures r + 1 == bits || !BetweenRightIncl(v, node, KeyOf(m, Offset(m, v, r + 1)))
    decreases bits - i
  {
    if i + 1 < bits && BetweenRightIncl(v, node, KeyOf(m, Offset(m, v, i + 1))) then
      LastFilled(m, v, node, bits, i + 1)
    else i
  }

  function Repeat(x: Option<Id>, n: nat): (r: seq<Option<Id>>)
    ensures |r| == n && forall i :: 0 <= i < n ==> r[i] == x
  {
    seq(n, _ => x)
  }

  /** The table with x in every slot from first to last. */
  function Filled(table: seq<Option<Id>>, x: Option<Id>, first: nat, last: nat): (r: seq<Option<Id>>)
    requires first <= last < |table|
    ensures |r| == |table|
  {
    table[..first] + Repeat(x, last + 1 - first) + table[last + 1..]
  }

  lemma FillOneMore(before: seq<Option<Id>>, x: Option<Id>, first: nat, last: nat)
    requires first <= last && last + 1 < |before|
    ensures Filled(before, x, first, last)[last + 1 := x] == Filled(before, x, first, last + 1)
  {
  }

  /** `fixFingerTable` once the lookup has returned `node`. */
  function FixedNode(m: int, v: Id, node: Node, found: Id): Node
    requires node.lastFinger < |node.finger|
  {
    var bits := |node.finger|;
    var last := LastFilled(m, v, found, bits, node.lastFinger);
    node.(
      finger := Filled(node.finger, Some(found), node.lastFinger, last),
      lastFinger := if last + 1 == bits then 0 else last + 1)
  }

  /** `copy(list[0:], list[1:])`. */
  function ShiftLeft(list: seq<Option<Id>>): (r: seq<Option<Id>>)
    requires |list| > 0
    ensures |r| == |list|
  {
    list[1..] + [list[|list| - 1]]
  }

  lemma DropOneMore(list: seq<Option<Id>>, i: nat)
    requires i + 1 < Known(list)
    ensures ShiftLeft(Dropped(list, i))[Known(list) - 1 - i := None] == Dropped(list, i + 1)
  {
  }

  // ---------- dead successors ----------

  /**
   * Exactly the leading dead entries go, except that the last known entry always stays:
   * the first slot is live afterwards, unless every known successor is dead, and then the
   * last known one is all that is left.
   */
  lemma SkipDeadIsExact(list: seq<Option<Id>>, peers: Peers) returns (d: nat)
    requires |list| > 0 && list[0].Some? && Contiguous(list)
    ensures d < Known(list) && SkipDead(list, peers) == list[d..] + Nils(d)
    ensures forall j :: 0 <= j < d ==> list[j].Some? && list[j].value !in peers
    ensures SkipDead(list, peers)[0].value in peers || d == Known(list) - 1
    ensures SkipDead(list, peers)[0].value !in peers <==>
              forall j :: 0 <= j < Known(list) ==> list[j].Some? && list[j].value !in peers
    ensures SkipDead(list, peers)[0].value !in peers ==>
              forall j :: 1 <= j < |list| ==> SkipDead(list, peers)[j].None?
  {
    Lookup.KnownIsFilled(list);
    FirstIsKnown(list);
    d := LeadingDead(list, peers, 0);
    if SkipDead(list, peers)[0].value !in peers {
      assert d == Known(list) - 1;
      forall j | 0 <= j < Known(list) ensures list[j].value !in peers {
        assert j < d || j == d;
      }
    }
  }

  // ---------- what the steps do, slot by slot ----------

  /** The successor reports a reachable node that lies between it and v. */
  ghost predicate ReportsCloser(v: Id, succ: Id, peers: Peers, closer: Id) {
    succ in peers && peers[succ] == Some(closer) && Between(v, succ, closer) && closer in peers
  }

  /**
   * With the dead entries skipped, a reachable closer node goes in front and every entry
   * moves down by one, so that only the last can be lost; otherwise nothing moves.
   */
  lemma CheckedListIs(v: Id, list: seq<Option<Id>>, peers: Peers)
    requires |list| > 0 && list[0].Some? && Contiguous(list)
    ensures var l, r := SkipDead(list, peers), CheckedList(v, list, peers);
            if exists closer :: ReportsCloser(v, l[0].value, peers, closer) then
              && ReportsCloser(v, l[0].value, peers, r[0].value)
              && forall k :: 0 <= k < |list| - 1 ==> r[k + 1] == l[k]
            else r == l
  {
    var l := SkipDead(list, peers);
    var succ := l[0].value;
    if succ in peers && peers[succ].Some? && Between(v, succ, peers[succ].value) && peers[succ].value in peers {
      assert ReportsCloser(v, succ, peers, peers[succ].value);
    }
  }

  /** The i-th entry of the successor's list is where taking it over stops. */
  ghost predicate StopsAt(v: Id, own: seq<Option<Id>>, theirs: seq<Option<Id>>, i: nat) {
    i >= |own| - 1 || i >= |theirs| || theirs[i] == None || theirs[i] == Some(v)
  }

  /** Slot j + 1 becomes the successor's slot j, up to the first nil, v itself or the end; no other slot moves. */
  lemma AdoptedListIs(v: Id, own: seq<Option<Id>>, theirs: seq<Option<Id>>)
    requires |own| > 0
    ensures var r := AdoptedList(v, own, theirs);
            exists k: nat {:trigger StopsAt(v, own, theirs, k)} ::
              && StopsAt(v, own, theirs, k) && k < |own|
              && (forall j: nat {:trigger StopsAt(v, own, theirs, j)} :: j < k ==> !StopsAt(v, own, theirs, j))
              && (forall j :: 0 <= j < k ==> j < |theirs| && r[j + 1] == theirs[j])
              && (forall j :: 0 <= j < |own| && (j == 0 || j > k) ==> r[j] == own[j])
  {
    var k := TakenPrefix(v, theirs, |own| - 1, 0);
    assert StopsAt(v, own, theirs, k);
  }

  /** A leaving first successor goes and the others move up; any other list stays as it is. */
  lemma SkippedListIs(list: seq<Option<Id>>, leaving: Id)
    requires |list| > 0 && list[0].Some? && Contiguous(list)
    ensures var r := SkippedList(list, leaving);
            if list[0] == Some(leaving) then
              (forall k :: 0 <= k < |list| - 1 ==> r[k] == list[k + 1]) && r[|list| - 1] == None
            else r == list
  {
  }

  /** The fingers from the i-th to the last-th are the whole run that the node found covers. */
  ghost predicate CoveredRun(m: int, v: Id, found: Id, bits: nat, i: nat, last: nat) {
    && i <= last < bits
    && (forall j :: i < j <= last ==> BetweenRightIncl(v, found, KeyOf(m, Offset(m, v, j))))
    && (last + 1 < bits ==> !BetweenRightIncl(v, found, KeyOf(m, Offset(m, v, last + 1))))
  }

  ghost predicate WrittenIn(table: seq<Option<Id>>, found: Id, first: nat, last: nat, r: seq<Option<Id>>) {
    && |r| == |table|
    && forall j :: 0 <= j < |table| ==> r[j] == if first <= j <= last then Some(found) else table[j]
  }

  lemma FilledIsWritten(table: seq<Option<Id>>, found: Id, first: nat, last: nat)
    requires first <= last < |table|
    ensures WrittenIn(table, found, first, last, Filled(table, Some(found), first, last))
  {
  }

  /** A repair writes the node found into the whole run of fingers it covers, and into no other, and goes on after it. */
  lemma FixedNodeIs(m: int, v: Id, node: Node, found: Id) returns (last: nat)
    requires node.lastFinger < |node.finger|
    ensures var r := FixedNode(m, v, node, found);
            && CoveredRun(m, v, found, |node.finger|, node.lastFinger, last)
            && WrittenIn(node.finger, found, node.lastFinger, last, r.finger)
            && r.lastFinger == (if last == |node.finger| - 1 then 0 else last + 1)
            && r.successors == node.successors && r.predecessor == node.predecessor
  {
    last := LastFilled(m, v, found, |node.finger|, node.lastFinger);
    FilledIsWritten(node.finger, found, node.lastFinger, last);
    hide Filled, LastFilled, WrittenIn;
  }

  // ---------- the node itself ----------

  class LocalVnode {
    const id: Id
    const successors: array<Option<Id>>
    const predecessors: array<Option<Id>>
    const finger: array<Option<Id>>
    var predecessor: Option<Id>
    var lastFinger: nat

    /** The node's routing state as a value. */
    ghost function State(): Node
      reads this, successors, finger
    {
      Node(successors[..], predecessor, finger[..], lastFinger)
    }

    ghost predicate Valid()
      reads this, successors, predecessors, finger
    {
      && successors != predecessors && successors != finger && predecessors != finger
      && predecessors.Length > 0
      && lastFinger < finger.Length
    }

    /** The node has a successor, as its stabilisation requires, and no gaps in its list. */
    ghost predicate HasSuccessor()
      reads this, successors
    {
      successors.Length > 0 && successors[0].Some? && Contiguous(successors[..])
    }

    /** `init`: empty tables of the configured sizes. */
    constructor (id: Id, numSuccessors: nat, hashBits: nat)
      requires hashBits > 0
      ensures Valid() && fresh(successors) && fresh(predecessors) && fresh(finger)
      ensures this.id == id && predecessors.Length == numSuccessors + 1
      ensures State() == Node(Nils(numSuccessors), None, Nils(hashBits), 0)
    {
      this.id := id;
      predecessor := None;
      lastFinger := 0;
      successors := new Option<Id>[numSuccessors](_ => None);
      predecessors := new Option<Id>[numSuccessors + 1](_ => None);
      finger := new Option<Id>[hashBits](_ => None);
      new;
      assert successors[..] == Nils(numSuccessors) && finger[..] == Nils(hashBits);
    }

    /** `knownSuccessors`. */
    method KnownSuccessors() returns (known: nat)
      ensures known == Known(successors[..])
    {
      known := 0;
      for i := 0 to successors.Length
        invariant known == Known(successors[..i])
      {
        assert successors[..i + 1][..i] == successors[..i];
        if successors[i].Some? {
          known := i + 1;
        }
      }
      assert successors[..successors.Length] == successors[..];
    }

    /** `checkNewSuccessor`. */
    method CheckNewSuccessor(peers: Peers) returns (res: CheckResult)
      requires Valid() && HasSuccessor()
      modifies successors
      ensures Valid() && HasSuccessor()
      ensures successors[..] == CheckedList(id, old(successors[..]), peers)
      ensures res == if successors[0].value in peers || SkipDead(old(successors[..]), peers)[0].value in peers then Checked
                     else if Known(old(successors[..])) > 1 then AllKnownDead
                     else SuccessorUnreachable
    {
      ghost var before := successors[..];
      Lookup.KnownIsFilled(before);
      FirstIsKnown(before);
      label CheckNewSuc:
      while true
        invariant successors[..] == before || (successors[..] == SkipDead(before, peers) && successors[0].value in peers)
        invariant HasSuccessor()
        decreases if successors[0].value in peers then 0 else 1
      {
        if successors[0].value !in peers {
          var known := KnownSuccessors();
          if known > 1 {
            var alive := SkipDeadPrefix(known, peers);
            if !alive {
              return AllKnownDead;
            }
            // A live successor: check it for a new one.
            continue CheckNewSuc;
          }
          return SuccessorUnreachable;
        }
        break;
      }
      var maybeSuc := peers[successors[0].value];
      if maybeSuc.Some? && Between(id, successors[0].value, maybeSuc.value) {
        if maybeSuc.value in peers {
          forall k | 1 <= k < successors.Length {
            successors[k] := successors[k - 1];
          }
          successors[0] := maybeSuc;
        }
      }
      res := Checked;
    }

    /** One turn of that loop: the list moves up over its dead head, and its last entry becomes nil. */
    method DropHead(ghost before: seq<Option<Id>>, i: nat, known: nat)
      requires i + 1 < known == Known(before) && successors[..] == Dropped(before, i)
      modifies successors
      ensures successors[..] == Dropped(before, i + 1)
    {
      ghost var cur := successors[..];
      forall k | 0 <= k < successors.Length - 1 {
        successors[k] := successors[k + 1];
      }
      assert successors[..] == ShiftLeft(cur);
      successors[known - 1 - i] := None;
      DropOneMore(before, i);
    }

    /** The loop of `checkNewSuccessor` over dead successors; false when the last known one is dead too. */
    method SkipDeadPrefix(known: nat, peers: Peers) returns (alive: bool)
      requires Valid() && HasSuccessor() && known == Known(successors[..]) > 1
      modifies successors
      ensures successors[..] == SkipDead(old(successors[..]), peers)
      ensures alive <==> successors[0].Some? && successors[0].value in peers
    {
      ghost var before := successors[..];
      Lookup.KnownIsFilled(before);
      ghost var d := LeadingDead(before, peers, 0);
      assert SkipDead(before, peers) == Dropped(before, d) && successors[..] == Dropped(before, 0);
      hide Dropped, Known, SkipDead;
      var i := 0;
      while i < known
        invariant 0 <= i <= d < known <= |before|
        invariant successors[..] == Dropped(before, i)
        invariant LeadingDead(before, peers, i) == d
      {
        assert successors[0] == successors[..][0] == before[i];
        if successors[0].value !in peers {
          if i + 1 == known {
            return false;
          }
          DropHead(before, i, known);
        } else {
          return true;
        }
        i := i + 1;
      }
      assert false;
      return false;
    }

    /** `Notify`, without its lock manager handover, and the list it returns. */
    method Notify(maybePred: Id) returns (list: seq<Option<Id>>)
      requires Valid()
      modifies this`predecessor, predecessors
      ensures Valid() && list == successors[..]
      ensures State() == old(State()).(predecessor := NotifiedPredecessor(id, old(predecessor), maybePred))
      ensures predecessors[..] == if old(predecessor).Some? && !Between(old(predecessor).value, id, maybePred)
                                  then old(predecessors[..])
                                  else old(predecessors[..])[0 := Some(maybePred)]
    {
      if predecessor.None? || Between(predecessor.value, id, maybePred) {
        predecessor := Some(maybePred);
        predecessors[0] := Some(maybePred);
      }
      list := successors[..];
    }

    /** `notifySuccessor` after the call: takes over the successor's list. */
    method AdoptSuccessors(succList: seq<Option<Id>>)
      requires Valid() && successors.Length > 0
      modifies successors
      ensures successors[..] == AdoptedList(id, old(successors[..]), succList)
    {
      ghost var before := successors[..];
      var room := successors.Length - 1;
      var taken := if |succList| > room then room else |succList|;
      var idx := 0;
      ghost var k := TakenPrefix(id, succList, room, 0);
      assert before == Adopted(before, succList, 0) && AdoptedList(id, before, succList) == Adopted(before, succList, k);
      hide Adopted, AdoptedList;
      while idx < taken && succList[idx].Some? && succList[idx].value != id
        invariant 0 <= idx <= taken
        invariant TakenPrefix(id, succList, room, idx) == k
        invariant successors[..] == Adopted(before, succList, idx)
      {
        AdoptOneMore(before, succList, idx);
        successors[idx + 1] := succList[idx];
        idx := idx + 1;
      }
      assert idx == k;
    }

    /** `fixFingerTable`, given the reply to the lookup of one successor of the offset. */
    method FixFingerTable(m: int, nodes: Lookup.Reply)
      requires Valid() && (nodes.Ok? && |nodes.value| > 0 ==> nodes.value[0].Some?)
      modifies this`lastFinger, finger
      ensures Valid()
      ensures State() == if nodes.Ok? && |nodes.value| > 0 then FixedNode(m, id, old(State()), nodes.value[0].value) else old(State())
    {
      if nodes.Err? || |nodes.value| == 0 {
        return;
      }
      var node := nodes.value[0].value;
      ghost var before, first := finger[..], lastFinger;
      finger[lastFinger] := Some(node);
      SkipAhead(m, node);
      assert Filled(before[first := Some(node)], Some(node), first, lastFinger) == Filled(before, Some(node), first, lastFinger);
      if lastFinger + 1 == finger.Length {
        lastFinger := 0;
      } else {
        lastFinger := lastFinger + 1;
      }
    }

    /** The loop of `fixFingerTable` that gives the node found to as many later fingers as it covers. */
    method SkipAhead(m: int, node: Id)
      requires Valid() && finger[lastFinger] == Some(node)
      modifies this`lastFinger, finger
      ensures Valid() && lastFinger == LastFilled(m, id, node, finger.Length, old(lastFinger))
      ensures finger[..] == Filled(old(finger[..]), Some(node), old(lastFinger), lastFinger)
    {
      ghost var before, first := finger[..], lastFinger;
      var hb := finger.Length;
      while true
        invariant first <= lastFinger < hb
        invariant LastFilled(m, id, node, hb, lastFinger) == LastFilled(m, id, node, hb, first)
        invariant finger[..] == Filled(before, Some(node), first, lastFinger)
        decreases hb - lastFinger
      {
        var next := lastFinger + 1;
        if next >= hb {
          break;
        }
        if BetweenRightIncl(id, node, KeyOf(m, Offset(m, id, next))) {
          FillOneMore(before, Some(node), first, lastFinger);
          finger[next] := Some(node);
          lastFinger := next;
        } else {
          break;
        }
      }
    }

    /** `SkipSuccessor`. */
    method SkipSuccessor(leaving: Id)
      requires Valid() && HasSuccessor()
      modifies successors
      ensures successors[..] == SkippedList(old(successors[..]), leaving)
    {
      if successors[0].value == leaving {
        ghost var before := successors[..];
        Lookup.KnownIsFilled(before);
        FirstIsKnown(before);
        var known := KnownSuccessors();
        forall k | 0 <= k < successors.Length - 1 {
          successors[k] := successors[k + 1];
        }
        successors[known - 1] := None;
        assert successors[..] == before[1..] + [None];
      }
    }

    /** `ClearPredecessor`. */
    method ClearPredecessor(p: Id)
      requires Valid()
      modifies this`predecessor, predecessors
      ensures Valid()
      ensures predecessor == Cleared(old(predecessor), p)
      ensures predecessors[..] == if old(predecessor) == Some(p) then old(predecessors[..])[0 := None] else old(predecessors[..])
    {
      if predecessor.Some? && predecessor.value == p {
        predecessor := None;
        predecessors[0] := None;
      }
    }
  }
}
