/**
 * A whole ring joining and stabilising: vnode.go's stabilisation steps and chord.go's
 * Join, run by any nodes in any order without failures or leaves. Each step moves the
 * first successors and predecessors as a step of module Links does, so what Links proves
 * holds over every run of the full state.
 */
module Stabilise {
  import opened Wrappers
  import opened RingMath
  import opened Nodes
  import opened Lookup
  import opened Vnodes
  import Fingers
  import LocalRing
  import Links

  datatype Event =
    | Join(joiner: Id, contact: Id)
    | CheckNewSuccessor(node: Id)
    | NotifySuccessor(node: Id)
    | FixFingerTable(node: Id)

  /** The first successors and the predecessors of a ring. */
  ghost function Project(net: Net): Links.Ptrs
    requires forall v :: v in net ==> |net[v].successors| > 0 && net[v].successors[0].Some?
  {
    Links.Ptrs(
      map v | v in net :: Succ(net, v),
      map v | v in net && net[v].predecessor.Some? :: net[v].predecessor.value)
  }

  /** Well-formed tables of the configured sizes. */
  ghost predicate Sized(m: int, s: nat, bits: nat, net: Net) {
    && m == Pow2(bits) && bits > 0
    && WellFormed(m, s, net)
    && (forall v {:trigger net[v].finger} {:trigger net[v].lastFinger} ::
         v in net ==> |net[v].finger| == bits && net[v].lastFinger < bits)
  }

  ghost predicate Inv(m: int, s: nat, bits: nat, core: set<Id>, net: Net) {
    Sized(m, s, bits, net) && Links.Inv(m, core, Project(net))
  }

  // ---------- the steps ----------

  /** All nodes are reachable and report their predecessors. */
  function AllPeers(net: Net): Peers {
    map w | w in net :: net[w].predecessor
  }

  ghost function Checked(m: int, s: nat, net: Net, v: Id): Net
    requires WellFormed(m, s, net) && v in net
  {
    net[v := net[v].(successors := CheckedList(v, net[v].successors, AllPeers(net)))]
  }

  /** v notifies its successor and takes over the list that comes back. */
  ghost function Notified(m: int, s: nat, net: Net, v: Id): Net
    requires WellFormed(m, s, net) && v in net && Succ(net, v) in net && Succ(net, v) != v
  {
    var x := Succ(net, v);
    net[x := net[x].(predecessor := NotifiedPredecessor(x, net[x].predecessor, v))]
       [v := net[v].(successors := AdoptedList(v, net[v].successors, net[x].successors))]
  }

  /** A new node with the successors its contact looked up for it, and nothing else. */
  function NewNode(list: seq<Option<Id>>, bits: nat): Node {
    Node(list, None, Nils(bits), 0)
  }

  ghost predicate Enabled(m: int, s: nat, bits: nat, net: Net, e: Event) {
    && WellFormed(m, s, net)
    && match e
       case Join(j, c) => j !in net && OnCircle(m, j) && c in net
                          && Find(m, s, net, net.Keys, c, s, j).reply.Ok?
       case CheckNewSuccessor(v) => v in net
       case NotifySuccessor(v) => v in net && Succ(net, v) in net && Succ(net, v) != v
       case FixFingerTable(v) => v in net && net[v].lastFinger < |net[v].finger|
                                 && OnCircle(m, Fingers.FingerKey(m, v, net[v].lastFinger))
  }

  ghost function Apply(m: int, s: nat, bits: nat, net: Net, e: Event): Net
    requires Enabled(m, s, bits, net, e)
  {
    match e
    case Join(j, c) => net[j := NewNode(Find(m, s, net, net.Keys, c, s, j).reply.value, bits)]
    case CheckNewSuccessor(v) => Checked(m, s, net, v)
    case NotifySuccessor(v) => Notified(m, s, net, v)
    case FixFingerTable(v) => Fingers.FixAt(m, s, net, v)
  }

  // ---------- each step keeps the tables well formed and moves the links as Links says ----------

  lemma ReplaceNode(m: int, s: nat, bits: nat, net: Net, v: Id, node: Node)
    requires Sized(m, s, bits, net) && v in net
    requires WellFormedNode(net.Keys, s, node) && |node.finger| == bits && node.lastFinger < bits
    ensures Sized(m, s, bits, net[v := node]) && net[v := node].Keys == net.Keys
  {
  }

  lemma CheckedListMembers(members: set<Id>, v: Id, list: seq<Option<Id>>, peers: Peers)
    requires |list| > 0 && list[0].Some? && Contiguous(list) && AllMembers(members, list)
    requires peers.Keys == members
    ensures AllMembers(members, CheckedList(v, list, peers))
    ensures CheckedList(v, list, peers)[0].value ==
              var x := list[0].value;
              if peers[x].Some? && Between(v, x, peers[x].value) && peers[x].value in members then peers[x].value else x
  {
    SlotOf(members, list, 0);
    KnownIsFilled(list);
    FirstIsKnown(list);
    assert LeadingDead(list, peers, 0) == 0;
    assert SkipDead(list, peers) == list;
    forall x | Some(x) in CheckedList(v, list, peers) ensures x in members {
      var i :| 0 <= i < |list| && CheckedList(v, list, peers)[i] == Some(x);
      if CheckedList(v, list, peers) != list && i > 0 {
        assert list[i - 1] == Some(x);
      }
      if Some(x) in list {
      }
    }
  }

  /** A node's first successor is another member, and a known predecessor is a member. */
  lemma LinkFacts(m: int, s: nat, bits: nat, core: set<Id>, net: Net, v: Id)
    requires Inv(m, s, bits, core, net) && v in net
    ensures |net[v].successors| > 0 && net[v].successors[0].Some? && Succ(net, v) in net && Succ(net, v) != v
    ensures net[v].predecessor.Some? ==> net[v].predecessor.value in net
  {
    var p := Project(net);
    assert Succ(net, v) == Links.Next(p.succ, v) && Succ(net, v) in p.succ;
    if net[v].predecessor.Some? {
      assert v in p.pred && p.pred[v] in p.succ;
    }
  }

  lemma CheckMovesLinks(net: Net, v: Id, nv: Node)
    requires forall w :: w in net ==> |net[w].successors| > 0 && net[w].successors[0].Some?
    requires v in net && Succ(net, v) in net && |nv.successors| > 0 && nv.predecessor == net[v].predecessor
    requires nv.successors[0] == Some(
               var x := Succ(net, v);
               var q := net[x].predecessor;
               if q.Some? && Between(v, x, q.value) then q.value else x)
    ensures Project(net[v := nv]) == Links.CheckStep(Project(net), v)
  {
  }

  lemma CheckRefines(m: int, s: nat, bits: nat, core: set<Id>, net: Net, v: Id)
    requires Inv(m, s, bits, core, net) && v in net
    ensures Sized(m, s, bits, Checked(m, s, net, v)) && Checked(m, s, net, v).Keys == net.Keys
    ensures Project(Checked(m, s, net, v)) == Links.CheckStep(Project(net), v)
  {
    var peers := AllPeers(net);
    var list := net[v].successors;
    LinkFacts(m, s, bits, core, net, v);
    LinkFacts(m, s, bits, core, net, Succ(net, v));
    hide Links.Inv;
    CheckedListMembers(net.Keys, v, list, peers);
    var nv := net[v].(successors := CheckedList(v, list, peers));
    hide CheckedList;
    ReplaceNode(m, s, bits, net, v, nv);
    CheckMovesLinks(net, v, nv);
  }

  lemma AdoptedListMembers(members: set<Id>, v: Id, own: seq<Option<Id>>, theirs: seq<Option<Id>>)
    requires |own| > 0 && own[0].Some? && Contiguous(own) && AllMembers(members, own) && AllMembers(members, theirs)
    ensures AllMembers(members, AdoptedList(v, own, theirs)) && Contiguous(AdoptedList(v, own, theirs))
  {
    var k := TakenPrefix(v, theirs, |own| - 1, 0);
    var r := AdoptedList(v, own, theirs);
    forall x | Some(x) in r ensures x in members {
      var i :| 0 <= i < |r| && r[i] == Some(x);
      if 1 <= i <= k {
        assert theirs[i - 1] == Some(x) && Some(x) in theirs;
      } else {
        assert own[i] == Some(x) && Some(x) in own;
      }
    }
    forall i, j | 0 <= i < j < |r| && r[j].Some? ensures r[i].Some? {
      if 1 <= i <= k {
        assert r[i] == theirs[i - 1];
      } else {
        assert r[i] == own[i];
        assert j > k ==> r[j] == own[j];
      }
    }
  }

  lemma NotifyRefines(m: int, s: nat, bits: nat, core: set<Id>, net: Net, v: Id)
    requires Inv(m, s, bits, core, net) && v in net
    ensures Enabled(m, s, bits, net, NotifySuccessor(v))
    ensures Sized(m, s, bits, Notified(m, s, net, v)) && Notified(m, s, net, v).Keys == net.Keys
    ensures Project(Notified(m, s, net, v)) == Links.NotifyStep(Project(net), v)
  {
    var x := Succ(net, v);
    LinkFacts(m, s, bits, core, net, v);
    hide Links.Inv;
    var nx := net[x].(predecessor := NotifiedPredecessor(x, net[x].predecessor, v));
    var nv := net[v].(successors := AdoptedList(v, net[v].successors, net[x].successors));
    AdoptedListMembers(net.Keys, v, net[v].successors, net[x].successors);
    ReplaceNode(m, s, bits, net, x, nx);
    ReplaceNode(m, s, bits, net[x := nx], v, nv);
    assert Notified(m, s, net, v) == net[x := nx][v := nv];
    NotifyMovesLinks(net, v, nx, nv);
  }

  lemma NotifyMovesLinks(net: Net, v: Id, nx: Node, nv: Node)
    requires forall w :: w in net ==> |net[w].successors| > 0 && net[w].successors[0].Some?
    requires v in net && Succ(net, v) in net && Succ(net, v) != v
    requires nx == net[Succ(net, v)].(predecessor := NotifiedPredecessor(Succ(net, v), net[Succ(net, v)].predecessor, v))
    requires nv.predecessor == net[v].predecessor && |nv.successors| > 0 && nv.successors[0] == net[v].successors[0]
    ensures Project(net[Succ(net, v) := nx][v := nv]) == Links.NotifyStep(Project(net), v)
  {
  }

  lemma FixRefines(m: int, s: nat, bits: nat, net: Net, v: Id)
    requires Sized(m, s, bits, net) && v in net
    ensures Enabled(m, s, bits, net, FixFingerTable(v))
    ensures Sized(m, s, bits, Fingers.FixAt(m, s, net, v))
    ensures Project(Fingers.FixAt(m, s, net, v)) == Project(net)
  {
    Fingers.FingerKeyOnCircle(m, bits, v, net[v].lastFinger);
    FixKeepsTables(m, s, bits, net, v);
    FixMovesNoLinks(net, Fingers.FixAt(m, s, net, v), v);
  }

  lemma FixMovesNoLinks(net: Net, net': Net, v: Id)
    requires forall w :: w in net ==> |net[w].successors| > 0 && net[w].successors[0].Some?
    requires v in net && net'.Keys == net.Keys && forall w :: w in net && w != v ==> net'[w] == net[w]
    requires net'[v] == net[v].(finger := net'[v].finger, lastFinger := net'[v].lastFinger)
    ensures (forall w :: w in net' ==> |net'[w].successors| > 0 && net'[w].successors[0].Some?)
    ensures Project(net') == Project(net)
  {
    forall w | w in net' ensures net'[w].successors == net[w].successors && net'[w].predecessor == net[w].predecessor {
      assert w != v ==> net'[w] == net[w];
    }
    assert Project(net').succ == Project(net).succ;
    assert Project(net').pred == Project(net).pred;
  }

  lemma FixKeepsTables(m: int, s: nat, bits: nat, net: Net, v: Id)
    requires Sized(m, s, bits, net) && v in net && OnCircle(m, Fingers.FingerKey(m, v, net[v].lastFinger))
    ensures Sized(m, s, bits, Fingers.FixAt(m, s, net, v))
  {
    var key := Fingers.FingerKey(m, v, net[v].lastFinger);
    var r := Find(m, s, net, net.Keys, v, 1, key).reply;
    var net' := Fingers.FixAt(m, s, net, v);
    if r.Ok? {
      AnswersAreMembers(m, s, net, v, 1, key);
      assert r.value[0] in r.value;
      FixedNodeWellFormed(net.Keys, m, s, v, net[v], r.value[0].value);
      hide FixedNode, Find;
      ReplaceNode(m, s, bits, net, v, net'[v]);
    }
  }

  lemma FixedNodeWellFormed(members: set<Id>, m: int, s: nat, v: Id, node: Node, f: Id)
    requires WellFormedNode(members, s, node) && f in members && node.lastFinger < |node.finger|
    ensures var node' := FixedNode(m, v, node, f);
            WellFormedNode(members, s, node') && |node'.finger| == |node.finger| && node'.lastFinger < |node.finger|
  {
  }

  /** A lookup only ever returns members. */
  lemma {:induction false} AnswersAreMembers(m: int, s: nat, net: Net, v: Id, n: nat, key: Id)
    requires WellFormed(m, s, net) && v in net && 1 <= n <= s && OnCircle(m, key)
    ensures var r := Find(m, s, net, net.Keys, v, n, key).reply;
            r.Ok? ==> AllMembers(net.Keys, r.value)
    decreases Dist(m, v, key)
  {
    var list := net[v].successors;
    if BetweenRightIncl(v, Succ(net, v), key) {
      PartOfMembers(net.Keys, list, 0, n);
    } else {
      var y := FindCases(m, s, net, net.Keys, v, n, key);
      if y.Some? {
        AnswersAreMembers(m, s, net, y.value, n, key);
      } else {
        LaterAnswersAreMembers(net.Keys, v, list, n, key, 1);
      }
    }
  }

  lemma PartOfMembers(members: set<Id>, list: seq<Option<Id>>, i: nat, j: nat)
    requires AllMembers(members, list) && i <= j <= |list|
    ensures AllMembers(members, list[i..j]) && AllMembers(members, list[..j])
  {
  }

  lemma {:induction false} LaterAnswersAreMembers(members: set<Id>, v: Id, list: seq<Option<Id>>, n: nat, key: Id, i: nat)
    requires n >= 1 && AllMembers(members, list) && forall j :: 0 <= j < Known(list) ==> list[j].Some?
    ensures var r := FromLaterSuccessors(v, list, n, key, i);
            r.Ok? ==> AllMembers(members, r.value)
    decreases Known(list) - i
  {
    if i <= Known(list) - n {
      PartOfMembers(members, list, i, i + n);
      LaterAnswersAreMembers(members, v, list, n, key, i + 1);
    }
  }

  /** In any reachable state a join succeeds and lands in the arc of some member. */
  lemma JoinRefines(m: int, s: nat, bits: nat, core: set<Id>, net: Net, j: Id, c: Id) returns (u: Id)
    requires Inv(m, s, bits, core, net) && j !in net && OnCircle(m, j) && c in net
    ensures Enabled(m, s, bits, net, Join(j, c))
    ensures Sized(m, s, bits, Apply(m, s, bits, net, Join(j, c)))
    ensures Links.JoinAllowed(Project(net), j, u)
    ensures Project(Apply(m, s, bits, net, Join(j, c))) == Links.JoinStep(Project(net), j, u)
    ensures Apply(m, s, bits, net, Join(j, c)) == net[j := Node(net[u].successors, None, Nils(bits), 0)]
  {
    forall v | v in net ensures Succ(net, v) != v {
      LinkFacts(m, s, bits, core, net, v);
    }
    assert NoSelfLoops(m, s, net);
    hide Links.Inv;
    u := LookupEndsAtArc(m, s, net, c, s, j);
    LinkFacts(m, s, bits, core, net, u);
    assert net[u].successors[..s] == net[u].successors;
    hide Find;
    JoinKeepsTables(m, s, bits, net, j, u);
    JoinMovesLinks(net, j, u, bits);
  }

  lemma JoinMovesLinks(net: Net, j: Id, u: Id, bits: nat)
    requires forall w :: w in net ==> |net[w].successors| > 0 && net[w].successors[0].Some?
    requires j !in net && u in net && Succ(net, u) in net && BetweenRightIncl(u, Succ(net, u), j)
    ensures Links.JoinAllowed(Project(net), j, u)
    ensures Project(net[j := NewNode(net[u].successors, bits)]) == Links.JoinStep(Project(net), j, u)
  {
  }

  lemma JoinKeepsTables(m: int, s: nat, bits: nat, net: Net, j: Id, u: Id)
    requires Sized(m, s, bits, net) && j !in net && OnCircle(m, j) && u in net
    ensures Sized(m, s, bits, net[j := NewNode(net[u].successors, bits)])
  {
  }

  /** Every step that can be taken keeps the invariant and is a step of Links. */
  lemma StepKeepsInv(m: int, s: nat, bits: nat, core: set<Id>, net: Net, e: Event)
    requires Inv(m, s, bits, core, net) && Enabled(m, s, bits, net, e)
    ensures Inv(m, s, bits, core, Apply(m, s, bits, net, e))
    ensures Links.ReachKept(m, Project(net), Project(Apply(m, s, bits, net, e)))
  {
    match e
    case Join(j, c) =>
      var u := JoinRefines(m, s, bits, core, net, j, c);
      Links.JoinKeeps(m, core, Project(net), j, u);
    case CheckNewSuccessor(v) =>
      CheckRefines(m, s, bits, core, net, v);
      Links.CheckKeeps(m, core, Project(net), v);
    case NotifySuccessor(v) =>
      NotifyRefines(m, s, bits, core, net, v);
      Links.NotifyKeeps(m, core, Project(net), v);
    case FixFingerTable(v) =>
      FixRefines(m, s, bits, net, v);
  }

  // ---------- runs ----------

  /** A locally built ring before any stabilisation: linked successors, no predecessors, empty fingers. */
  ghost predicate LocallyBuilt(m: int, s: nat, bits: nat, ids: seq<Id>, net: Net) {
    && SortedRing(m, ids) && s >= 1 && m == Pow2(bits) && bits > 0
    && (forall x :: x in net <==> x in ids)
    && (forall i {:trigger net[ids[i]]} :: 0 <= i < |ids| ==>
         net[ids[i]] == NewNode(LocalRing.LocalSuccessors(ids, i, Nils(s)), bits))
  }

  /** States visited from a locally built ring by any sequence of steps. */
  ghost predicate Run(m: int, s: nat, bits: nat, ids: seq<Id>, nets: seq<Net>, events: seq<Event>) {
    && |nets| == |events| + 1
    && LocallyBuilt(m, s, bits, ids, nets[0])
    && forall i: nat {:trigger StepAt(m, s, bits, nets, events, i)} :: i < |events| ==> StepAt(m, s, bits, nets, events, i)
  }

  ghost predicate StepAt(m: int, s: nat, bits: nat, nets: seq<Net>, events: seq<Event>, i: nat)
    requires i < |events| && |nets| == |events| + 1
  {
    Enabled(m, s, bits, nets[i], events[i]) && nets[i + 1] == Apply(m, s, bits, nets[i], events[i])
  }

  function Members(ids: seq<Id>): set<Id> {
    set x | x in ids
  }

  lemma BuiltIsSized(m: int, s: nat, bits: nat, ids: seq<Id>, net: Net)
    requires LocallyBuilt(m, s, bits, ids, net)
    ensures IdealLists(m, ids, s, net) && Sized(m, s, bits, net)
    ensures forall v :: v in net ==> net[v].predecessor.None?
  {
    LocalRing.LinkedRingIsIdeal(m, ids, s, net);
    forall v | v in net ensures net[v].predecessor.None? && |net[v].finger| == bits && net[v].lastFinger < bits {
      var i := IndexOf(ids, v);
      assert net[ids[i]] == NewNode(LocalRing.LocalSuccessors(ids, i, Nils(s)), bits);
    }
  }

  lemma ConsecutiveSkipNone(m: int, ids: seq<Id>, i: nat, k: nat)
    requires SortedRing(m, ids) && i < |ids| && k < |ids|
    ensures !Between(ids[i], At(ids, i + 1), ids[k])
  {
  }

  lemma NextAt(m: int, s: nat, ids: seq<Id>, net: Net, v: Id) returns (i: nat)
    requires IdealLists(m, ids, s, net) && v in net
    ensures i < |ids| && ids[i] == v && Succ(net, v) == At(ids, i + 1) && Succ(net, v) in net && Succ(net, v) != v
  {
    i := IndexOf(ids, v);
    assert FollowsRing(ids, i, net[ids[i]].successors);
    assert net[ids[i]].successors[0].value == At(ids, i + 1 + 0);
    var k := if i + 1 < |ids| then i + 1 else 0;
    assert At(ids, i + 1) == ids[k] && ids[k] in ids;
  }

  lemma BuiltLinks(m: int, s: nat, ids: seq<Id>, net: Net, v: Id)
    requires IdealLists(m, ids, s, net) && v in net
    ensures LinkedAt(m, net, v) && SkipsNone(net, v, Members(ids))
  {
    var i := NextAt(m, s, ids, net, v);
    forall b | b in Members(ids) ensures !Between(v, Succ(net, v), b) {
      var k := IndexOf(ids, b);
      ConsecutiveSkipNone(m, ids, i, k);
    }
  }

  lemma BuiltMembers(m: int, s: nat, bits: nat, ids: seq<Id>, net: Net)
    requires LocallyBuilt(m, s, bits, ids, net)
    ensures Members(ids) == net.Keys
  {
    forall x ensures x in Members(ids) <==> x in net.Keys {
      assert x in net <==> x in ids;
    }
  }

  /** What it takes to have the invariant when no node knows a predecessor. */
  lemma InvWithoutPredecessors(m: int, s: nat, bits: nat, core: set<Id>, net: Net)
    requires Sized(m, s, bits, net) && core <= net.Keys && forall v :: v in net ==> net[v].predecessor.None?
    requires forall v :: v in net ==> |net[v].successors| > 0 && net[v].successors[0].Some?
    requires Links.Closed(m, Project(net).succ) && Links.CoreNotSkipped(core, Project(net).succ)
    ensures Inv(m, s, bits, core, net)
  {
  }

  lemma BuiltSatisfiesInv(m: int, s: nat, bits: nat, ids: seq<Id>, net: Net)
    requires LocallyBuilt(m, s, bits, ids, net)
    ensures Inv(m, s, bits, Members(ids), net)
  {
    hide *;
    BuiltIsSized(m, s, bits, ids, net);
    BuiltMembers(m, s, bits, ids, net);
    assert Members(ids) == net.Keys;
    forall v | v in net ensures LinkedAt(m, net, v) && SkipsNone(net, v, Members(ids)) {
      BuiltLinks(m, s, ids, net, v);
    }
    ProjectsClosed(m, net);
    ProjectsCore(net, Members(ids));
    InvWithoutPredecessors(m, s, bits, Members(ids), net);
  }

  ghost predicate LinkedAt(m: int, net: Net, v: Id) {
    && v in net && |net[v].successors| > 0 && net[v].successors[0].Some?
    && OnCircle(m, v) && Succ(net, v) in net && Succ(net, v) != v
  }

  /** The arc of v jumps over no one among `members`. */
  ghost predicate SkipsNone(net: Net, v: Id, members: set<Id>) {
    && v in net && |net[v].successors| > 0 && net[v].successors[0].Some?
    && forall b :: b in members ==> !Between(v, Succ(net, v), b)
  }

  lemma ProjectsClosed(m: int, net: Net)
    requires forall v {:trigger LinkedAt(m, net, v)} :: v in net ==> LinkedAt(m, net, v)
    ensures forall v :: v in net ==> |net[v].successors| > 0 && net[v].successors[0].Some?
    ensures Links.Closed(m, Project(net).succ)
  {
    forall v | v in net ensures |net[v].successors| > 0 && net[v].successors[0].Some? {
      assert LinkedAt(m, net, v);
    }
    var succ := Project(net).succ;
    forall v | v in succ ensures OnCircle(m, v) && Links.Next(succ, v) in succ && Links.Next(succ, v) != v {
      assert LinkedAt(m, net, v);
    }
  }

  lemma ProjectsCore(net: Net, members: set<Id>)
    requires forall v {:trigger SkipsNone(net, v, members)} :: v in net ==> SkipsNone(net, v, members)
    ensures forall v :: v in net ==> |net[v].successors| > 0 && net[v].successors[0].Some?
    ensures Links.CoreNotSkipped(members, Project(net).succ)
  {
    forall v | v in net ensures |net[v].successors| > 0 && net[v].successors[0].Some? {
      assert SkipsNone(net, v, members);
    }
    var succ := Project(net).succ;
    forall v, b | v in succ && b in members ensures !Between(v, Links.Next(succ, v), b) {
      assert SkipsNone(net, v, members);
    }
  }

  /** The invariant holds in every state of every run. */
  lemma {:induction false} RunKeepsInv(m: int, s: nat, bits: nat, ids: seq<Id>, nets: seq<Net>, events: seq<Event>, i: nat)
    requires Run(m, s, bits, ids, nets, events) && i < |nets|
    ensures Inv(m, s, bits, Members(ids), nets[i])
    decreases i
  {
    if i == 0 {
      BuiltSatisfiesInv(m, s, bits, ids, nets[0]);
    } else {
      RunKeepsInv(m, s, bits, ids, nets, events, i - 1);
      assert StepAt(m, s, bits, nets, events, i - 1);
      StepKeepsInv(m, s, bits, Members(ids), nets[i - 1], events[i - 1]);
    }
  }

  /** Every first successor is there, and is another member. */
  ghost predicate HasLinks(m: int, net: Net) {
    && (forall v :: v in net ==> |net[v].successors| > 0 && net[v].successors[0].Some?)
    && Links.Closed(m, Project(net).succ)
  }

  /** Following first successors in net from x arrives at y. */
  ghost predicate Reaches(m: int, net: Net, x: Id, y: Id) {
    HasLinks(m, net) && x in net && Links.Reaches(m, Project(net).succ, x, y)
  }

  lemma StepKeepsReach(m: int, s: nat, bits: nat, ids: seq<Id>, nets: seq<Net>, events: seq<Event>, i: nat, x: Id, y: Id)
    requires Run(m, s, bits, ids, nets, events) && i < |events| && Reaches(m, nets[i], x, y)
    ensures Reaches(m, nets[i + 1], x, y)
  {
    RunKeepsInv(m, s, bits, ids, nets, events, i);
    assert StepAt(m, s, bits, nets, events, i);
    hide Run, Enabled, Apply;
    StepKeepsInv(m, s, bits, Members(ids), nets[i], events[i]);
    assert x in Project(nets[i]).succ;
  }

  /**
   * No run from a locally built ring ever loses reachability: what a node reaches at some
   * point it reaches ever after.
   */
  lemma {:induction false} ReachabilityIsNeverLost(m: int, s: nat, bits: nat, ids: seq<Id>, nets: seq<Net>, events: seq<Event>,
                                                   i: nat, j: nat, x: Id, y: Id)
    requires Run(m, s, bits, ids, nets, events) && i <= j <= |events| && |nets| == |events| + 1
    requires Reaches(m, nets[i], x, y)
    ensures Reaches(m, nets[j], x, y)
    decreases j - i
  {
    hide *;
    if i < j {
      StepKeepsReach(m, s, bits, ids, nets, events, i, x, y);
      ReachabilityIsNeverLost(m, s, bits, ids, nets, events, i + 1, j, x, y);
    }
  }

  /** Throughout every run every node, the newly joined ones included, reaches every initial member. */
  lemma InitialMembersAlwaysReached(m: int, s: nat, bits: nat, ids: seq<Id>, nets: seq<Net>, events: seq<Event>, i: nat, x: Id, b: Id)
    requires Run(m, s, bits, ids, nets, events) && i < |nets| && x in nets[i] && b in ids
    ensures Reaches(m, nets[i], x, b)
  {
    RunKeepsInv(m, s, bits, ids, nets, events, i);
    Links.CoreReached(m, Members(ids), Project(nets[i]), x, b);
  }

  /** In every state of every run any node can join through any member. */
  lemma JoinNeverFails(m: int, s: nat, bits: nat, ids: seq<Id>, nets: seq<Net>, events: seq<Event>, i: nat, j: Id, c: Id)
    requires Run(m, s, bits, ids, nets, events) && i < |nets|
    requires j !in nets[i] && OnCircle(m, j) && c in nets[i]
    ensures Enabled(m, s, bits, nets[i], Join(j, c))
  {
    RunKeepsInv(m, s, bits, ids, nets, events, i);
    var u := JoinRefines(m, s, bits, Members(ids), nets[i], j, c);
  }

  // ---------- coming to rest ----------

  /** No check and no notification by any node changes a first successor or a predecessor. */
  ghost predicate AtRest(m: int, s: nat, net: Net) {
    WellFormed(m, s, net) && forall v {:trigger RestsAt(m, s, net, v)} :: v in net ==> RestsAt(m, s, net, v)
  }

  ghost predicate RestsAt(m: int, s: nat, net: Net, v: Id)
    requires WellFormed(m, s, net) && v in net
  {
    && Succ(net, v) in net && Succ(net, v) != v
    && SameLinks(m, s, net, Checked(m, s, net, v))
    && SameLinks(m, s, net, Notified(m, s, net, v))
  }

  ghost predicate SameLinks(m: int, s: nat, net: Net, net': Net)
    requires WellFormed(m, s, net)
  {
    && net'.Keys == net.Keys
    && forall v :: v in net ==>
         |net'[v].successors| > 0 && net'[v].successors[0] == net[v].successors[0] && net'[v].predecessor == net[v].predecessor
  }

  /** The ideal ring: in sorted order each member's first successor is the next, and its predecessor the one before. */
  ghost predicate IsIdealRing(m: int, s: nat, ring: seq<Id>, net: Net)
    requires WellFormed(m, s, net)
  {
    SortedRing(m, ring) && forall i: nat {:trigger IdealAt(m, s, ring, net, i)} :: i < |ring| ==> IdealAt(m, s, ring, net, i)
  }

  ghost predicate IdealAt(m: int, s: nat, ring: seq<Id>, net: Net, i: nat)
    requires WellFormed(m, s, net) && i < |ring| && |ring| >= 2
  {
    && ring[i] in net && Succ(net, ring[i]) == At(ring, i + 1)
    && At(ring, i + 1) in net && net[At(ring, i + 1)].predecessor == Some(ring[i])
  }

  lemma SameLinksSameProjection(m: int, s: nat, bits: nat, net: Net, net': Net)
    requires Sized(m, s, bits, net) && Sized(m, s, bits, net') && net'.Keys == net.Keys
    ensures SameLinks(m, s, net, net') <==> Project(net') == Project(net)
  {
    var p, p' := Project(net), Project(net');
    if p == p' {
      forall v | v in net ensures net'[v].successors[0] == net[v].successors[0] && net'[v].predecessor == net[v].predecessor {
        assert p.succ[v] == p'.succ[v];
        assert v in p.pred <==> v in p'.pred;
        if v in p.pred {
          assert p.pred[v] == p'.pred[v];
        }
      }
    }
    if SameLinks(m, s, net, net') {
      forall v | v in net ensures net'[v].successors[0] == net[v].successors[0] && net'[v].predecessor == net[v].predecessor {
      }
      assert p.succ == p'.succ;
      assert p.pred == p'.pred;
    }
  }

  lemma RestIsQuiescence(m: int, s: nat, bits: nat, core: set<Id>, net: Net)
    requires Inv(m, s, bits, core, net) && WellFormed(m, s, net)
    ensures AtRest(m, s, net) <==> Links.Quiescent(Project(net))
  {
    hide Inv, RestsAt, Links.CheckStep, Links.NotifyStep;
    var p := Project(net);
    assert p.succ.Keys == net.Keys;
    hide Project;
    if AtRest(m, s, net) {
      RestGivesQuiescence(m, s, bits, core, net);
    }
    if Links.Quiescent(p) {
      QuiescenceGivesRest(m, s, bits, core, net);
    }
  }

  lemma RestGivesQuiescence(m: int, s: nat, bits: nat, core: set<Id>, net: Net)
    requires Inv(m, s, bits, core, net) && WellFormed(m, s, net) && AtRest(m, s, net)
    ensures Links.Quiescent(Project(net))
  {
    hide Inv, RestsAt, Links.CheckStep, Links.NotifyStep;
    var p := Project(net);
    forall v | v in p.succ ensures Links.CheckStep(p, v) == p && Links.NotifyStep(p, v) == p {
      assert v in net;
      hide WellFormed, Project;
      assert RestsAt(m, s, net, v);
      StepRests(m, s, bits, core, net, v);
    }
  }

  lemma QuiescenceGivesRest(m: int, s: nat, bits: nat, core: set<Id>, net: Net)
    requires Inv(m, s, bits, core, net) && WellFormed(m, s, net) && Links.Quiescent(Project(net))
    ensures AtRest(m, s, net)
  {
    hide Inv, RestsAt, Links.CheckStep, Links.NotifyStep;
    var p := Project(net);
    forall v | v in net ensures RestsAt(m, s, net, v) {
      assert v in p.succ;
      hide WellFormed, Project;
      assert Links.CheckStep(p, v) == p && Links.NotifyStep(p, v) == p;
      StepRests(m, s, bits, core, net, v);
    }
  }

  lemma StepRests(m: int, s: nat, bits: nat, core: set<Id>, net: Net, v: Id)
    requires Inv(m, s, bits, core, net) && v in net
    ensures RestsAt(m, s, net, v) <==>
              Links.CheckStep(Project(net), v) == Project(net) && Links.NotifyStep(Project(net), v) == Project(net)
  {
    LinkFacts(m, s, bits, core, net, v);
    hide Links.Inv;
    CheckRefines(m, s, bits, core, net, v);
    NotifyRefines(m, s, bits, core, net, v);
    hide Project, Checked, Notified, SameLinks, Links.CheckStep, Links.NotifyStep;
    SameLinksSameProjection(m, s, bits, net, Checked(m, s, net, v));
    SameLinksSameProjection(m, s, bits, net, Notified(m, s, net, v));
  }

  /**
   * A state of a run is at rest exactly when its first successors and predecessors form
   * the ideal ring of all its members.
   */
  lemma AtRestIffIdeal(m: int, s: nat, bits: nat, ids: seq<Id>, nets: seq<Net>, events: seq<Event>, i: nat, ring: seq<Id>)
    requires Run(m, s, bits, ids, nets, events) && i < |nets|
    requires SortedRing(m, ring) && forall x :: x in nets[i] <==> x in ring
    ensures WellFormed(m, s, nets[i]) && (AtRest(m, s, nets[i]) <==> IsIdealRing(m, s, ring, nets[i]))
  {
    var net, core := nets[i], Members(ids);
    RunKeepsInv(m, s, bits, ids, nets, events, i);
    RestIsQuiescence(m, s, bits, core, net);
    assert ids[0] in core;
    Links.QuiescentIffIdeal(m, core, Project(net));
    IdealProjection(m, s, bits, core, net, ring);
  }

  lemma IdealProjection(m: int, s: nat, bits: nat, core: set<Id>, net: Net, ring: seq<Id>)
    requires Inv(m, s, bits, core, net) && SortedRing(m, ring) && forall x :: x in net <==> x in ring
    ensures Links.Ideal(Project(net)) <==> IsIdealRing(m, s, ring, net)
  {
    var p := Project(net);
    if Links.Ideal(p) {
      assert Links.Lists(ring, p.succ);
      forall i: nat | i < |ring| ensures IdealAt(m, s, ring, net, i) {
        Links.IdealIsSortedCycle(m, ring, p, i);
        assert p.succ[ring[i]] == Succ(net, ring[i]);
      }
    }
    if IsIdealRing(m, s, ring, net) {
      IdealRingProjects(m, s, net, ring);
    }
  }

  lemma IdealRingSkipsNone(m: int, s: nat, net: Net, ring: seq<Id>, v: Id, x: Id)
    requires WellFormed(m, s, net) && IsIdealRing(m, s, ring, net) && v in ring && x in ring
    ensures v in net && !Between(v, Succ(net, v), x)
    ensures Succ(net, v) in net && net[Succ(net, v)].predecessor == Some(v)
  {
    var i := IndexOf(ring, v);
    var k := IndexOf(ring, x);
    assert IdealAt(m, s, ring, net, i);
    ConsecutiveSkipNone(m, ring, i, k);
  }

  lemma IdealRingHasPredecessors(m: int, s: nat, net: Net, ring: seq<Id>, x: Id)
    requires WellFormed(m, s, net) && IsIdealRing(m, s, ring, net) && x in ring
    ensures x in net && net[x].predecessor.Some?
  {
    var k := IndexOf(ring, x);
    var i := if k == 0 then |ring| - 1 else k - 1;
    assert IdealAt(m, s, ring, net, i);
    assert At(ring, i + 1) == x;
  }

  lemma IdealRingProjects(m: int, s: nat, net: Net, ring: seq<Id>)
    requires WellFormed(m, s, net) && IsIdealRing(m, s, ring, net) && forall x :: x in net <==> x in ring
    ensures Links.Ideal(Project(net))
  {
    forall v | v in net ensures MirroredAt(net, v) && SkipsNone(net, v, net.Keys) {
      IdealRingHasPredecessors(m, s, net, ring, v);
      forall x | x in net.Keys ensures !Between(v, Succ(net, v), x) {
        IdealRingSkipsNone(m, s, net, ring, v, x);
      }
      IdealRingSkipsNone(m, s, net, ring, v, v);
    }
    hide WellFormed, IsIdealRing, SkipsNone, MirroredAt;
    ProjectsCore(net, net.Keys);
    ProjectsNoneSkipped(net);
    ProjectsMirrored(net);
  }

  ghost predicate MirroredAt(net: Net, v: Id) {
    && v in net && |net[v].successors| > 0 && net[v].successors[0].Some?
    && net[v].predecessor.Some?
    && Succ(net, v) in net && net[Succ(net, v)].predecessor == Some(v)
  }

  lemma ProjectsNoneSkipped(net: Net)
    requires forall v :: v in net ==> |net[v].successors| > 0 && net[v].successors[0].Some?
    requires Links.CoreNotSkipped(net.Keys, Project(net).succ)
    ensures Links.NoneSkipped(Project(net).succ)
  {
  }

  lemma ProjectsMirrored(net: Net)
    requires forall v :: v in net ==> |net[v].successors| > 0 && net[v].successors[0].Some?
    requires forall v {:trigger MirroredAt(net, v)} :: v in net ==> MirroredAt(net, v)
    ensures Links.Mirrored(Project(net))
  {
    var p := Project(net);
    forall v | v in net
      ensures v in p.pred && Links.Next(p.succ, v) in p.pred && p.pred[Links.Next(p.succ, v)] == v
    {
      assert MirroredAt(net, v);
    }
    assert p.pred.Keys == p.succ.Keys;
  }

  // ---------- only finitely many changes ----------

  ghost predicate AllWellFormed(m: int, s: nat, nets: seq<Net>, i: nat, j: nat) {
    i <= j < |nets| && forall k {:trigger nets[k]} :: i <= k <= j ==> WellFormed(m, s, nets[k])
  }

  /** How many of the steps from state i to state j changed a first successor or a predecessor. */
  ghost function Changes(m: int, s: nat, nets: seq<Net>, i: nat, j: nat): nat
    requires AllWellFormed(m, s, nets, i, j)
    decreases j
  {
    if i == j then 0
    else Changes(m, s, nets, i, j - 1) + (if SameProjection(m, s, nets[j - 1], nets[j]) then 0 else 1)
  }

  /** The measure of a state whose links are well formed. */
  ghost function NetMeasure(m: int, s: nat, net: Net): int
    requires WellFormed(m, s, net)
  {
    Links.Measure(m, Project(net))
  }

  ghost predicate SameProjection(m: int, s: nat, net: Net, net': Net)
    requires WellFormed(m, s, net) && WellFormed(m, s, net')
  {
    Project(net') == Project(net)
  }

  ghost predicate Lowers(m: int, s: nat, net: Net, net': Net)
    requires WellFormed(m, s, net) && WellFormed(m, s, net')
  {
    if SameProjection(m, s, net, net') then NetMeasure(m, s, net') <= NetMeasure(m, s, net)
    else NetMeasure(m, s, net') < NetMeasure(m, s, net)
  }

  lemma CheckLowers(m: int, s: nat, bits: nat, core: set<Id>, net: Net, v: Id)
    requires Inv(m, s, bits, core, net) && v in net
    ensures WellFormed(m, s, Checked(m, s, net, v)) && Lowers(m, s, net, Checked(m, s, net, v))
  {
    CheckRefines(m, s, bits, core, net, v);
    Links.CheckLowersMeasure(m, core, Project(net), v);
    hide WellFormed, Links.Measure, Links.CheckStep, Project, Links.Inv, CheckedList, Checked;
  }

  lemma NotifyLowers(m: int, s: nat, bits: nat, core: set<Id>, net: Net, v: Id)
    requires Inv(m, s, bits, core, net) && v in net
    ensures Enabled(m, s, bits, net, NotifySuccessor(v))
    ensures WellFormed(m, s, Notified(m, s, net, v)) && Lowers(m, s, net, Notified(m, s, net, v))
  {
    NotifyRefines(m, s, bits, core, net, v);
    Links.NotifyLowersMeasure(m, core, Project(net), v);
    hide WellFormed, Links.Measure, Links.NotifyStep, Project, Links.Inv, Notified;
  }

  lemma FixLowers(m: int, s: nat, bits: nat, net: Net, v: Id)
    requires Sized(m, s, bits, net) && v in net
    ensures Enabled(m, s, bits, net, FixFingerTable(v))
    ensures WellFormed(m, s, Fingers.FixAt(m, s, net, v)) && Lowers(m, s, net, Fingers.FixAt(m, s, net, v))
  {
    FixRefines(m, s, bits, net, v);
    hide WellFormed, Links.Measure, Project, Fingers.FixAt;
  }

  lemma StepLowers(m: int, s: nat, bits: nat, core: set<Id>, net: Net, e: Event)
    requires Inv(m, s, bits, core, net) && Enabled(m, s, bits, net, e) && !e.Join?
    ensures WellFormed(m, s, net) && WellFormed(m, s, Apply(m, s, bits, net, e))
    ensures Lowers(m, s, net, Apply(m, s, bits, net, e))
  {
    match e
    case CheckNewSuccessor(v) =>
      CheckLowers(m, s, bits, core, net, v);
      hide WellFormed, Lowers, Links.Inv, Checked;
    case NotifySuccessor(v) =>
      NotifyLowers(m, s, bits, core, net, v);
      hide WellFormed, Lowers, Links.Inv, Notified;
    case FixFingerTable(v) =>
      FixLowers(m, s, bits, net, v);
      hide WellFormed, Lowers, Links.Inv, Fingers.FixAt;
  }

  lemma InvIsWellFormed(m: int, s: nat, bits: nat, core: set<Id>, net: Net)
    requires Inv(m, s, bits, core, net)
    ensures WellFormed(m, s, net) && NetMeasure(m, s, net) >= 0
  {
    Links.MeasureNonNegative(m, core, Project(net));
  }

  lemma RunStateIsWellFormed(m: int, s: nat, bits: nat, ids: seq<Id>, nets: seq<Net>, events: seq<Event>, j: nat)
    requires Run(m, s, bits, ids, nets, events) && j < |nets|
    ensures WellFormed(m, s, nets[j]) && NetMeasure(m, s, nets[j]) >= 0
  {
    RunKeepsInv(m, s, bits, ids, nets, events, j);
    InvIsWellFormed(m, s, bits, Members(ids), nets[j]);
  }

  lemma RunStepLowers(m: int, s: nat, bits: nat, ids: seq<Id>, nets: seq<Net>, events: seq<Event>, j: nat)
    requires Run(m, s, bits, ids, nets, events) && j < |events| && !events[j].Join?
    ensures WellFormed(m, s, nets[j]) && WellFormed(m, s, nets[j + 1]) && Lowers(m, s, nets[j], nets[j + 1])
  {
    RunKeepsInv(m, s, bits, ids, nets, events, j);
    hide WellFormed, Inv, Lowers, LocallyBuilt, Enabled, Apply;
    assert StepAt(m, s, bits, nets, events, j);
    StepLowers(m, s, bits, Members(ids), nets[j], events[j]);
  }

  lemma {:induction false} ChangesLowerMeasure(m: int, s: nat, bits: nat, ids: seq<Id>, nets: seq<Net>, events: seq<Event>, i: nat, j: nat)
    requires Run(m, s, bits, ids, nets, events) && i <= j < |nets| == |events| + 1
    requires forall k :: i <= k < j ==> !events[k].Join?
    ensures AllWellFormed(m, s, nets, i, j)
    ensures Changes(m, s, nets, i, j) + NetMeasure(m, s, nets[j]) <= NetMeasure(m, s, nets[i])
    decreases j
  {
    hide WellFormed, NetMeasure, Run, SameProjection;
    RunStateIsWellFormed(m, s, bits, ids, nets, events, j);
    if i < j {
      ChangesLowerMeasure(m, s, bits, ids, nets, events, i, j - 1);
      RunStepLowers(m, s, bits, ids, nets, events, j - 1);
      assert AllWellFormed(m, s, nets, i, j);
      assert Changes(m, s, nets, i, j) == Changes(m, s, nets, i, j - 1) + (if SameProjection(m, s, nets[j - 1], nets[j]) then 0 else 1);
    }
  }

  /** Between joins, of any number of steps only boundedly many change a link: at most the measure at the start. */
  lemma LinksSettle(m: int, s: nat, bits: nat, ids: seq<Id>, nets: seq<Net>, events: seq<Event>, i: nat, j: nat)
    requires Run(m, s, bits, ids, nets, events) && i <= j < |nets|
    requires forall k :: i <= k < j ==> !events[k].Join?
    ensures AllWellFormed(m, s, nets, i, j)
    ensures Changes(m, s, nets, i, j) <= Links.Measure(m, Project(nets[i]))
  {
    ChangesLowerMeasure(m, s, bits, ids, nets, events, i, j);
    RunStateIsWellFormed(m, s, bits, ids, nets, events, j);
  }
}
