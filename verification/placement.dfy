/**
 * obj_server_repl.go: which node sends a key's versions to which, from its predecessor and
 * successor lists. R is the number of successors a node keeps and of replicas a key has.
 */
module Placement {
  import opened Wrappers
  import opened RingMath
  import opened Nodes

  /** A key to be synchronised with a node. */
  datatype Send = Send(target: Id, key: string)

  // ---------- what one node decides ----------

  function CountSome(list: seq<Option<Id>>): (n: nat)
    ensures n <= |list|
    ensures n == |list| <==> forall i :: 0 <= i < |list| ==> list[i].Some?
  {
    if list == [] then 0 else CountSome(list[..|list| - 1]) + (if list[|list| - 1].Some? then 1 else 0)
  }

  /** The count is the number of filled slots, wherever they are. */
  lemma {:induction false} CountIsFilledSlots(list: seq<Option<Id>>)
    ensures CountSome(list) == |set i: nat | i < |list| && list[i].Some?|
    decreases |list|
  {
    var filled := set i: nat | i < |list| && list[i].Some?;
    if list == [] {
      assert filled == {};
    } else {
      var n := |list| - 1;
      CountIsFilledSlots(list[..n]);
      var before := set i: nat | i < |list[..n]| && list[..n][i].Some?;
      assert filled == before + (if list[n].Some? then {n} else {});
      assert n !in before;
    }
  }

  /** Slot j holds x and the slots after it, up to the k-th, are empty. */
  ghost predicate FarthestAt(list: seq<Option<Id>>, k: nat, x: Id, j: nat) {
    j < k <= |list| && list[j] == Some(x) && forall l :: j < l < k ==> list[l].None?
  }

  /** The farthest known predecessor among the first k. */
  function LastKnown(list: seq<Option<Id>>, k: nat): (r: Option<Id>)
    requires k <= |list|
    ensures r.None? ==> forall j :: 0 <= j < k ==> list[j].None?
    ensures r.Some? ==> exists j: nat :: FarthestAt(list, k, r.value, j)
  {
    if k == 0 then None
    else if list[k - 1].Some? then
      assert FarthestAt(list, k, list[k - 1].value, k - 1);
      list[k - 1]
    else
      var r := LastKnown(list, k - 1);
      assert forall x, j: nat {:trigger FarthestAt(list, k - 1, x, j)} :: FarthestAt(list, k - 1, x, j) ==> FarthestAt(list, k, x, j);
      r
  }

  /** `localRepl` forwards a key with this hash to the first successor. */
  predicate Forwards(preds: seq<Option<Id>>, succ: Option<Id>, self: Id, R: nat, h: Id)
    requires |preds| == R + 1 >= 2
  {
    var last := LastKnown(preds, if CountSome(preds) > R then R else CountSome(preds));
    preds[0].Some? && last.Some? && succ.Some? && BetweenRightIncl(last.value, self, h)
  }

  /** `localRepl` sends a key with this hash back to the first predecessor. */
  predicate SendsBack(preds: seq<Option<Id>>, R: nat, h: Id)
    requires |preds| == R + 1 >= 2
  {
    && preds[0].Some? && LastKnown(preds, if CountSome(preds) > R then R else CountSome(preds)).Some?
    && BetweenRightIncl(if preds[1].Some? then preds[1].value else preds[0].value, preds[0].value, h)
  }

  /** `globalRepl` sends a key with this hash to its owner. */
  predicate Misplaced(preds: seq<Option<Id>>, self: Id, R: nat, h: Id)
    requires |preds| == R + 1 >= 2
  {
    && CountSome(preds) > R && preds[CountSome(preds) - 1].Some?
    && !BetweenRightIncl(preds[CountSome(preds) - 1].value, self, h)
  }

  /** The counting loop that opens `localRepl` and `globalRepl`. */
  method CountPreds(preds: seq<Option<Id>>) returns (num: nat)
    ensures num == CountSome(preds)
  {
    num := 0;
    for i := 0 to |preds|
      invariant num == CountSome(preds[..i])
    {
      assert preds[..i + 1][..i] == preds[..i];
      if preds[i].Some? {
        num := num + 1;
      }
    }
    assert preds[..|preds|] == preds;
  }

  /** `localRepl`: the keys to synchronise, and with whom. */
  method LocalRepl(preds: seq<Option<Id>>, succ: Option<Id>, self: Id, R: nat, keys: set<string>, hash: string -> Id)
    returns (sends: set<Send>)
    requires |preds| == R + 1 >= 2
    ensures forall s :: s in sends <==>
      s.key in keys && ((Forwards(preds, succ, self, R, hash(s.key)) && Some(s.target) == succ)
                        || (SendsBack(preds, R, hash(s.key)) && Some(s.target) == preds[0]))
    ensures preds[0].None? ==> sends == {}
    ensures forall s :: s in sends ==> Some(s.target) in {preds[0], succ}
  {
    sends := {};
    var num := CountPreds(preds);
    if num > R {
      num := R;
    }
    if preds[0].None? {
      return;
    }
    var first := preds[0].value;
    var second := if preds[1].Some? then preds[1].value else first;
    var i := num;
    while i > 0 && preds[i - 1].None?
      invariant 0 <= i <= num && LastKnown(preds, i) == LastKnown(preds, num)
    {
      i := i - 1;
    }
    if i == 0 {
      return;
    }
    var last := preds[i - 1].value;
    var left := keys;
    while left != {}
      invariant left <= keys
      invariant forall s :: s in sends <==>
        s.key in keys - left && ((Forwards(preds, succ, self, R, hash(s.key)) && Some(s.target) == succ)
                                 || (SendsBack(preds, R, hash(s.key)) && Some(s.target) == preds[0]))
      decreases |left|
    {
      var key :| key in left;
      var h := hash(key);
      if succ.Some? && BetweenRightIncl(last, self, h) {
        sends := sends + {Send(succ.value, key)};
      }
      if BetweenRightIncl(second, first, h) {
        sends := sends + {Send(first, key)};
      }
      left := left - {key};
    }
  }

  /** `globalRepl`; the lookup of a key's owner may fail. */
  method GlobalRepl(preds: seq<Option<Id>>, self: Id, R: nat, keys: set<string>, hash: string -> Id, owner: string -> Option<Id>)
    returns (sends: set<Send>)
    requires |preds| == R + 1 >= 2
    ensures forall s :: s in sends <==> s.key in keys && Misplaced(preds, self, R, hash(s.key)) && Some(s.target) == owner(s.key)
  {
    sends := {};
    var num := CountPreds(preds);
    if num <= R || preds[num - 1].None? {
      return;
    }
    var left := keys;
    while left != {}
      invariant left <= keys
      invariant forall s :: s in sends <==>
        s.key in keys - left && Misplaced(preds, self, R, hash(s.key)) && Some(s.target) == owner(s.key)
      decreases |left|
    {
      var key :| key in left;
      if !BetweenRightIncl(preds[num - 1].value, self, hash(key)) && owner(key).Some? {
        sends := sends + {Send(owner(key).value, key)};
      }
      left := left - {key};
    }
  }

  /** `incSync`: the successors on other hosts that get a value set at this node. */
  method IncSync(pred: Option<Id>, self: Id, succs: seq<Option<Id>>, local: Id -> bool, h: Id) returns (targets: set<Id>)
    ensures forall x :: x in targets <==> (pred.Some? ==> BetweenRightIncl(pred.value, self, h)) && Some(x) in succs && !local(x)
  {
    targets := {};
    if pred.None? || BetweenRightIncl(pred.value, self, h) {
      for i := 0 to |succs|
        invariant forall x :: x in targets <==> Some(x) in succs[..i] && !local(x)
      {
        assert succs[..i + 1] == succs[..i] + [succs[i]];
        if succs[i].Some? && !local(succs[i].value) {
          targets := targets + {succs[i].value};
        }
      }
      assert succs[..|succs|] == succs;
    }
  }

  // ---------- on an ideal ring ----------

  /** The number of steps clockwise from the o-th node to the i-th of n. */
  function Steps(n: nat, o: nat, i: nat): int
    requires o < n && i < n
  {
    if o <= i then i - o else i - o + n
  }

  function Min(a: int, b: int): int {
    if a <= b then a else b
  }

  /** The lists of the i-th node: the predecessors and successors it has in ring order, R + 1 and R at most, then nils. */
  ghost predicate IdealPreds(ring: seq<Id>, R: nat, i: nat, preds: seq<Option<Id>>) {
    && i < |ring| && |preds| == R + 1 && 2 <= |ring|
    && forall j :: 0 <= j <= R ==> preds[j] == if j < |ring| - 1 then Some(At(ring, i + |ring| - 1 - j)) else None
  }

  ghost predicate IdealSuccs(ring: seq<Id>, R: nat, i: nat, succs: seq<Option<Id>>) {
    && i < |ring| && |succs| == R && 2 <= |ring|
    && forall j :: 0 <= j < R ==> succs[j] == if j < |ring| - 1 then Some(At(ring, i + 1 + j)) else None
  }

  lemma {:induction false} CountOfPrefix(list: seq<Option<Id>>, k: nat)
    requires k <= |list| && forall j :: 0 <= j < |list| ==> (list[j].Some? <==> j < k)
    ensures CountSome(list) == k
    decreases |list|
  {
    if |list| > k {
      CountOfPrefix(list[..|list| - 1], k);
    } else if k > 0 {
      CountOfPrefix(list[..k - 1], k - 1);
    }
  }

  /** The predecessors a node has are counted, and the farthest of its first k is the k-th. */
  lemma IdealCount(ring: seq<Id>, R: nat, i: nat, preds: seq<Option<Id>>)
    requires R >= 1 && IdealPreds(ring, R, i, preds)
    ensures CountSome(preds) == Min(R + 1, |ring| - 1)
    ensures LastKnown(preds, Min(R, |ring| - 1)) == Some(At(ring, i + |ring| - Min(R, |ring| - 1)))
  {
    CountOfPrefix(preds, Min(R + 1, |ring| - 1));
  }

  /** The arc from the k-th predecessor to the node itself holds the keys owned fewer than k steps back. */
  lemma ArcCovers(m: int, ring: seq<Id>, i: nat, k: nat, key: Id)
    requires SortedRing(m, ring) && i < |ring| && 1 <= k < |ring|
    ensures BetweenRightIncl(At(ring, i + |ring| - k), ring[i], key) <==> Steps(|ring|, OwnerIndex(ring, key), i) < k
  {
  }

  /** The owner and its first R - 1 successors forward a key clockwise, the node before the owner never, and no other node does. */
  lemma ForwardsIff(m: int, ring: seq<Id>, R: nat, i: nat, preds: seq<Option<Id>>, key: Id)
    requires SortedRing(m, ring) && R >= 1 && IdealPreds(ring, R, i, preds)
    ensures Forwards(preds, Some(At(ring, i + 1)), ring[i], R, key) <==>
              Steps(|ring|, OwnerIndex(ring, key), i) < Min(R, |ring| - 1)
  {
    IdealCount(ring, R, i, preds);
    ArcCovers(m, ring, i, Min(R, |ring| - 1), key);
    hide CountSome, LastKnown, OwnerIndex, SortedRing;
  }

  /** The arc before a node's predecessor holds the keys that predecessor owns. */
  lemma ArcBefore(m: int, ring: seq<Id>, i: nat, key: Id)
    requires SortedRing(m, ring) && i < |ring| && 3 <= |ring|
    ensures BetweenRightIncl(At(ring, i + |ring| - 2), At(ring, i + |ring| - 1), key) <==> Steps(|ring|, OwnerIndex(ring, key), i) == 1
    ensures Steps(|ring|, OwnerIndex(ring, key), i) == 1 ==> At(ring, i + |ring| - 1) == ring[OwnerIndex(ring, key)]
  {
    var prev := if i == 0 then |ring| - 1 else i - 1;
    ArcCovers(m, ring, prev, 1, key);
    hide OwnerIndex, SortedRing;
    assert At(ring, i + |ring| - 1) == ring[prev];
    assert At(ring, prev + |ring| - 1) == At(ring, i + |ring| - 2);
  }

  /** Only the owner's first successor sends a key back, and to the owner; of two nodes neither does. */
  lemma SendsBackIff(m: int, ring: seq<Id>, R: nat, i: nat, preds: seq<Option<Id>>, key: Id)
    requires SortedRing(m, ring) && R >= 1 && IdealPreds(ring, R, i, preds)
    ensures SendsBack(preds, R, key) <==> |ring| >= 3 && Steps(|ring|, OwnerIndex(ring, key), i) == 1
    ensures SendsBack(preds, R, key) ==> preds[0].value == ring[OwnerIndex(ring, key)]
  {
    IdealCount(ring, R, i, preds);
    if |ring| >= 3 {
      ArcBefore(m, ring, i, key);
    }
    hide CountSome, LastKnown, OwnerIndex, SortedRing, At;
  }

  /** A node takes a key for misplaced exactly when it is neither its owner nor one of the R replicas. */
  lemma MisplacedIff(m: int, ring: seq<Id>, R: nat, i: nat, preds: seq<Option<Id>>, key: Id)
    requires SortedRing(m, ring) && R >= 1 && IdealPreds(ring, R, i, preds)
    ensures Misplaced(preds, ring[i], R, key) <==> Steps(|ring|, OwnerIndex(ring, key), i) > R
  {
    IdealCount(ring, R, i, preds);
    if R + 1 < |ring| {
      ArcCovers(m, ring, i, R + 1, key);
    }
    hide CountSome, OwnerIndex, SortedRing;
  }

  /** A value set at the owner goes to exactly its replicas at once, R of them or all there are; set anywhere else it goes nowhere. */
  lemma IncSyncReachesReplicas(m: int, ring: seq<Id>, R: nat, i: nat, preds: seq<Option<Id>>, succs: seq<Option<Id>>, key: Id, x: nat)
    requires SortedRing(m, ring) && R >= 1 && IdealPreds(ring, R, i, preds) && IdealSuccs(ring, R, i, succs)
    requires x < |ring|
    ensures preds[0].Some?
    ensures BetweenRightIncl(preds[0].value, ring[i], key) && Some(ring[x]) in succs <==>
            i == OwnerIndex(ring, key) && 1 <= Steps(|ring|, OwnerIndex(ring, key), x) <= R
  {
    ArcCovers(m, ring, i, 1, key);
    var n := |ring|;
    var d := Steps(n, i, x);
    hide OwnerIndex;
    if 1 <= d <= R {
      assert succs[d - 1] == Some(At(ring, i + d));
    }
    if j :| 0 <= j < R && succs[j] == Some(ring[x]) {
      assert At(ring, i + 1 + j) == ring[if i + 1 + j < n then i + 1 + j else i + 1 + j - n];
    }
  }

  // ---------- rounds of replication ----------

  function PredsOf(ring: seq<Id>, R: nat, i: nat): (preds: seq<Option<Id>>)
    requires i < |ring| && 2 <= |ring|
    ensures IdealPreds(ring, R, i, preds)
  {
    seq(R + 1, j requires 0 <= j <= R => if j < |ring| - 1 then Some(At(ring, i + |ring| - 1 - j)) else None)
  }

  /** In one round on an ideal ring, each node on its own host, node i brings node j up to date with the key. */
  predicate SendsTo(ring: seq<Id>, R: nat, key: Id, i: nat, j: nat)
    requires i < |ring| && j < |ring| && R >= 1 && 2 <= |ring|
  {
    var preds := PredsOf(ring, R, i);
    || (Forwards(preds, Some(At(ring, i + 1)), ring[i], R, key) && At(ring, i + 1) == ring[j])
    || (SendsBack(preds, R, key) && preds[0] == Some(ring[j]))
    || (Misplaced(preds, ring[i], R, key) && j == OwnerIndex(ring, key))
  }

  /** The nodes that hold the key's versions after every holder ran `localRepl` and `globalRepl` once. */
  function Round(ring: seq<Id>, R: nat, key: Id, holders: set<nat>): set<nat>
    requires R >= 1 && 2 <= |ring|
  {
    set j: nat | j < |ring| && (j in holders || exists i :: i in holders && i < |ring| && SendsTo(ring, R, key, i, j))
  }

  function Rounds(ring: seq<Id>, R: nat, key: Id, holders: set<nat>, t: nat): set<nat>
    requires R >= 1 && 2 <= |ring|
  {
    if t == 0 then holders else Round(ring, R, key, Rounds(ring, R, key, holders, t - 1))
  }

  /** The node d steps past the key's owner. */
  function NodeAt(ring: seq<Id>, key: Id, d: nat): (i: nat)
    requires d < |ring|
    ensures i < |ring| && Steps(|ring|, OwnerIndex(ring, key), i) == d
  {
    var o := OwnerIndex(ring, key);
    if o + d < |ring| then o + d else o + d - |ring|
  }

  lemma SendsToIff(m: int, ring: seq<Id>, R: nat, key: Id, i: nat, j: nat)
    requires SortedRing(m, ring) && R >= 1 && 2 <= |ring| && i < |ring| && j < |ring|
    ensures var o := OwnerIndex(ring, key);
            var from, to := Steps(|ring|, o, i), Steps(|ring|, o, j);
            SendsTo(ring, R, key, i, j) <==>
              (from < R && to == from + 1) || (to == 0 && ((from == 1 && |ring| >= 3) || from > R))
  {
    var preds := PredsOf(ring, R, i);
    ForwardsIff(m, ring, R, i, preds, key);
    SendsBackIff(m, ring, R, i, preds, key);
    MisplacedIff(m, ring, R, i, preds, key);
    var next := if i + 1 < |ring| then i + 1 else 0;
    assert At(ring, i + 1) == ring[next];
    assert At(ring, i + 1) == ring[j] <==> j == next;
    assert preds[0].value == ring[j] && SendsBack(preds, R, key) <==> j == OwnerIndex(ring, key) && SendsBack(preds, R, key);
    hide Forwards, SendsBack, Misplaced, IdealPreds, OwnerIndex, SortedRing, At;
  }

  /** The node d steps past the owner has something to tell it: the owner itself, its first successor unless
      it is also the owner's predecessor, or a node past the replicas. */
  predicate Tells(n: nat, R: nat, d: nat) {
    d < n && (d == 0 || (d == 1 && n >= 3) || d > R)
  }

  ghost predicate OwnerLearns(ring: seq<Id>, R: nat, key: Id, holders: set<nat>) {
    exists d: nat {:trigger Tells(|ring|, R, d)} :: Tells(|ring|, R, d) && NodeAt(ring, key, d) in holders
  }

  /** Who sends a key to the node d steps past its owner. */
  lemma SendersTo(m: int, ring: seq<Id>, R: nat, key: Id, i: nat, d: nat)
    requires SortedRing(m, ring) && R >= 1 && 2 <= |ring| && d < |ring| && i < |ring|
    ensures var from := Steps(|ring|, OwnerIndex(ring, key), i);
            && (d == 0 ==> (SendsTo(ring, R, key, i, NodeAt(ring, key, d)) <==> from != 0 && Tells(|ring|, R, from)))
            && (d > 0 ==> (SendsTo(ring, R, key, i, NodeAt(ring, key, d)) <==> from < R && from + 1 == d))
            && 0 <= from < |ring| && i == NodeAt(ring, key, from)
  {
    SendsToIff(m, ring, R, key, i, NodeAt(ring, key, d));
    hide SendsTo, OwnerIndex, SortedRing;
  }

  /** A round brings the owner up to date exactly when some holder tells it. */
  lemma RoundAtOwner(m: int, ring: seq<Id>, R: nat, key: Id, holders: set<nat>)
    requires SortedRing(m, ring) && R >= 1 && 2 <= |ring| && OnRing(ring, holders)
    ensures NodeAt(ring, key, 0) in Round(ring, R, key, holders) <==> OwnerLearns(ring, R, key, holders)
  {
    var o, j := OwnerIndex(ring, key), NodeAt(ring, key, 0);
    assert Tells(|ring|, R, 0);
    forall i | i in holders
      ensures SendsTo(ring, R, key, i, j) ==> OwnerLearns(ring, R, key, holders) {
      SendersTo(m, ring, R, key, i, 0);
    }
    forall e: nat | Tells(|ring|, R, e) && NodeAt(ring, key, e) in holders ensures j in Round(ring, R, key, holders) {
      SendersTo(m, ring, R, key, NodeAt(ring, key, e), 0);
      hide SendsTo, SortedRing, OwnerIndex;
    }
    hide SendsTo, NodeAt, OwnerIndex, Tells, SortedRing;
  }

  /** One round, in steps from the owner: forward up to the R-th replica, and back to the owner. */
  lemma RoundIff(m: int, ring: seq<Id>, R: nat, key: Id, holders: set<nat>, d: nat)
    requires SortedRing(m, ring) && R >= 1 && 2 <= |ring| && d < |ring| && OnRing(ring, holders)
    ensures NodeAt(ring, key, d) in Round(ring, R, key, holders) <==>
            if d == 0 then OwnerLearns(ring, R, key, holders)
            else NodeAt(ring, key, d) in holders || (d <= R && NodeAt(ring, key, d - 1) in holders)
  {
    if d == 0 {
      RoundAtOwner(m, ring, R, key, holders);
    } else {
      var o, j := OwnerIndex(ring, key), NodeAt(ring, key, d);
      forall i | i in holders
        ensures SendsTo(ring, R, key, i, j) <==> d <= R && i == NodeAt(ring, key, d - 1) {
        SendersTo(m, ring, R, key, i, d);
      }
      hide SendsTo, NodeAt, OwnerIndex, SortedRing;
    }
  }

  ghost predicate OnRing(ring: seq<Id>, holders: set<nat>) {
    forall i :: i in holders ==> i < |ring|
  }

  lemma RoundsStayOnRing(ring: seq<Id>, R: nat, key: Id, holders: set<nat>, t: nat)
    requires R >= 1 && 2 <= |ring| && OnRing(ring, holders)
    ensures OnRing(ring, Rounds(ring, R, key, holders, t))
  {
  }

  /** From the owner's copy alone, t rounds cover precisely its first t successors, and never more than R. */
  lemma {:induction false} RoundsCoverReplicas(m: int, ring: seq<Id>, R: nat, key: Id, t: nat, d: nat)
    requires SortedRing(m, ring) && R >= 1 && 2 <= |ring| && d < |ring|
    ensures NodeAt(ring, key, d) in Rounds(ring, R, key, {OwnerIndex(ring, key)}, t) <==> d <= t && d <= R
    decreases t
  {
    var start := {OwnerIndex(ring, key)};
    if t > 0 {
      var before := Rounds(ring, R, key, start, t - 1);
      RoundsStayOnRing(ring, R, key, start, t - 1);
      RoundIff(m, ring, R, key, before, d);
      forall e: nat | e < |ring| ensures NodeAt(ring, key, e) in before <==> e <= t - 1 && e <= R {
        RoundsCoverReplicas(m, ring, R, key, t - 1, e);
      }
      hide OwnerIndex, Round, NodeAt, Rounds;
    } else {
      hide OwnerIndex, Round;
    }
  }

  /** Whoever holds the key, no round takes it past the R-th replica. */
  lemma {:induction false} RoundsNeverPass(m: int, ring: seq<Id>, R: nat, key: Id, holders: set<nat>, t: nat, d: nat)
    requires SortedRing(m, ring) && R >= 1 && 2 <= |ring| && R < d < |ring| && OnRing(ring, holders)
    ensures NodeAt(ring, key, d) in Rounds(ring, R, key, holders, t) <==> NodeAt(ring, key, d) in holders
    decreases t
  {
    if t > 0 {
      RoundsStayOnRing(ring, R, key, holders, t - 1);
      RoundIff(m, ring, R, key, Rounds(ring, R, key, holders, t - 1), d);
      RoundsNeverPass(m, ring, R, key, holders, t - 1, d);
    }
  }

  /** When only replicas from the second on hold the key, that never changes. */
  lemma {:induction false} OwnerNeverLearns(m: int, ring: seq<Id>, R: nat, key: Id, holders: set<nat>, t: nat)
    requires SortedRing(m, ring) && R >= 1 && 2 <= |ring| && OnRing(ring, holders) && !OwnerLearns(ring, R, key, holders)
    ensures !OwnerLearns(ring, R, key, Rounds(ring, R, key, holders, t))
    decreases t
  {
    if t > 0 {
      var before := Rounds(ring, R, key, holders, t - 1);
      OwnerNeverLearns(m, ring, R, key, holders, t - 1);
      RoundsStayOnRing(ring, R, key, holders, t - 1);
      forall d: nat | Tells(|ring|, R, d) ensures NodeAt(ring, key, d) !in Rounds(ring, R, key, holders, t) {
        RoundIff(m, ring, R, key, before, d);
        assert NodeAt(ring, key, d) !in before;
        if d == 1 {
          assert Tells(|ring|, R, 0);
        }
      }
    }
  }

  lemma {:induction false} RoundsReach(m: int, ring: seq<Id>, R: nat, key: Id, holders: set<nat>, t: nat, d: nat)
    requires SortedRing(m, ring) && R >= 1 && 2 <= |ring| && OnRing(ring, holders) && OwnerLearns(ring, R, key, holders)
    requires d <= t && d <= R && d < |ring|
    ensures NodeAt(ring, key, d) in Rounds(ring, R, key, holders, t + 1)
    decreases t
  {
    var before := Rounds(ring, R, key, holders, t);
    RoundsStayOnRing(ring, R, key, holders, t);
    RoundIff(m, ring, R, key, before, d);
    assert Rounds(ring, R, key, holders, t + 1) == Round(ring, R, key, before);
    assert t == 0 ==> before == holders;
    hide *;
    if t == 0 {
    } else if d < t {
      RoundsReach(m, ring, R, key, holders, t - 1, d);
    } else {
      RoundsReach(m, ring, R, key, holders, t - 1, d - 1);
    }
  }

  /**
   * Any set of holders heals within R + 1 rounds, to the owner and all R replicas, exactly
   * when it does not consist of replicas from the second on alone, or, of two nodes, of
   * the one that is not the owner.
   */
  lemma RoundsHealIff(m: int, ring: seq<Id>, R: nat, key: Id, holders: set<nat>)
    requires SortedRing(m, ring) && R >= 1 && 2 <= |ring| && OnRing(ring, holders)
    ensures (forall d: nat :: d <= R && d < |ring| ==> NodeAt(ring, key, d) in Rounds(ring, R, key, holders, R + 1))
            <==> OwnerLearns(ring, R, key, holders)
  {
    if OwnerLearns(ring, R, key, holders) {
      forall d: nat | d <= R && d < |ring| ensures NodeAt(ring, key, d) in Rounds(ring, R, key, holders, R + 1) {
        RoundsReach(m, ring, R, key, holders, R, d);
      }
    } else {
      OwnerNeverLearns(m, ring, R, key, holders, R + 1);
      assert Tells(|ring|, R, 0);
      assert NodeAt(ring, key, 0) !in Rounds(ring, R, key, holders, R + 1);
    }
  }
}
