/** ring.go and chord.go: a ring's local vnodes, how they are first linked, and Ring.Lookup. */
module LocalRing {
  import opened Wrappers
  import opened RingMath
  import opened Nodes
  import opened Lookup
  import opened Vnodes
  import opened Hops

  function Min(a: int, b: int): int {
    if a <= b then a else b
  }

  function Ids(vnodes: seq<LocalVnode>): (ids: seq<Id>)
    ensures |ids| == |vnodes| && forall i :: 0 <= i < |vnodes| ==> ids[i] == vnodes[i].id
  {
    seq(|vnodes|, i requires 0 <= i < |vnodes| => vnodes[i].id)
  }

  /** The vnodes own separate tables. */
  ghost predicate SeparateSuccessors(vnodes: seq<LocalVnode>) {
    forall i, j :: 0 <= i < j < |vnodes| ==> vnodes[i].successors != vnodes[j].successors
  }

  ghost predicate SeparatePredecessors(vnodes: seq<LocalVnode>) {
    forall i, j :: 0 <= i < j < |vnodes| ==> vnodes[i].predecessors != vnodes[j].predecessors
  }

  /** What `setLocalSuccessors` leaves in a successor list. */
  function LocalSuccessors(ids: seq<Id>, idx: nat, list: seq<Option<Id>>): (r: seq<Option<Id>>)
    requires idx < |ids|
    ensures |r| == |list|
    ensures forall i :: 0 <= i < |list| ==>
              r[i] == if i < Min(|list|, |ids| - 1) then Some(At(ids, idx + i + 1)) else list[i]
  {
    seq(|list|, i requires 0 <= i < |list| =>
      if i < Min(|list|, |ids| - 1) then Some(At(ids, idx + i + 1)) else list[i])
  }

  /** `setLocalSuccessors`. */
  method SetLocalSuccessors(vnodes: seq<LocalVnode>, numSuccessors: nat)
    requires SeparateSuccessors(vnodes)
    requires forall i :: 0 <= i < |vnodes| ==> vnodes[i].successors.Length == numSuccessors
    modifies set i | 0 <= i < |vnodes| :: vnodes[i].successors
    ensures forall i :: 0 <= i < |vnodes| ==>
              vnodes[i].successors[..] == LocalSuccessors(Ids(vnodes), i, old(vnodes[i].successors[..]))
  {
    var numV := |vnodes|;
    var numSuc := Min(numSuccessors, numV - 1);
    for idx := 0 to numV
      invariant forall i :: 0 <= i < idx ==>
        vnodes[i].successors[..] == LocalSuccessors(Ids(vnodes), i, old(vnodes[i].successors[..]))
      invariant forall i :: idx <= i < numV ==> vnodes[i].successors[..] == old(vnodes[i].successors[..])
    {
      LinkOne(vnodes, idx, numSuc);
    }
  }

  /** The inner loop of `setLocalSuccessors`. */
  method LinkOne(vnodes: seq<LocalVnode>, idx: nat, numSuc: int)
    requires idx < |vnodes| && numSuc == Min(vnodes[idx].successors.Length, |vnodes| - 1)
    modifies vnodes[idx].successors
    ensures vnodes[idx].successors[..] == LocalSuccessors(Ids(vnodes), idx, old(vnodes[idx].successors[..]))
  {
    var numV := |vnodes|;
    var successors := vnodes[idx].successors;
    ghost var ids := Ids(vnodes);
    for i := 0 to numSuc
      invariant forall k :: 0 <= k < i ==> successors[k] == Some(At(ids, idx + k + 1))
      invariant forall k :: i <= k < successors.Length ==> successors[k] == old(successors[k])
    {
      WrapsOnce(idx + i + 1, numV);
      successors[i] := Some(vnodes[(idx + i + 1) % numV].id);
    }
  }

  lemma WrapsOnce(x: nat, n: nat)
    requires 0 < n && x < 2 * n
    ensures x % n == if x < n then x else x - n
  {
  }

  /** What `setLocalPredecessors` leaves in slot i of vnode idx. */
  function LocalPredecessor(ids: seq<Id>, idx: nat, i: nat): Id
    requires idx < |ids| && i < |ids| - 1
  {
    if idx - i - 1 < 0 then ids[|ids| - i - 1] else ids[idx - i - 1]
  }

  /** What `setLocalPredecessors` leaves in a predecessor list. */
  function LocalPredecessors(ids: seq<Id>, idx: nat, list: seq<Option<Id>>): (r: seq<Option<Id>>)
    requires idx < |ids|
    ensures |r| == |list|
    ensures forall i :: 0 <= i < |list| ==> r[i] == if i < |ids| - 1 then Some(LocalPredecessor(ids, idx, i)) else list[i]
  {
    seq(|list|, i requires 0 <= i < |list| => if i < |ids| - 1 then Some(LocalPredecessor(ids, idx, i)) else list[i])
  }

  /** `setLocalPredecessors`. */
  method SetLocalPredecessors(vnodes: seq<LocalVnode>, numSuccessors: nat)
    requires SeparatePredecessors(vnodes)
    requires forall i :: 0 <= i < |vnodes| ==> vnodes[i].predecessors.Length == numSuccessors + 1
    modifies set i | 0 <= i < |vnodes| :: vnodes[i].predecessors
    ensures forall i :: 0 <= i < |vnodes| ==>
              vnodes[i].predecessors[..] == LocalPredecessors(Ids(vnodes), i, old(vnodes[i].predecessors[..]))
  {
    var numV := |vnodes|;
    var numPred := Min(numSuccessors + 1, numV - 1);
    for idx := 0 to numV
      invariant forall i :: 0 <= i < idx ==>
        vnodes[i].predecessors[..] == LocalPredecessors(Ids(vnodes), i, old(vnodes[i].predecessors[..]))
      invariant forall i :: idx <= i < numV ==> vnodes[i].predecessors[..] == old(vnodes[i].predecessors[..])
    {
      LinkBack(vnodes, idx, numPred);
    }
  }

  /** The inner loop of `setLocalPredecessors`. */
  method LinkBack(vnodes: seq<LocalVnode>, idx: nat, numPred: int)
    requires idx < |vnodes| && numPred == Min(vnodes[idx].predecessors.Length, |vnodes| - 1)
    modifies vnodes[idx].predecessors
    ensures vnodes[idx].predecessors[..] == LocalPredecessors(Ids(vnodes), idx, old(vnodes[idx].predecessors[..]))
  {
    var numV := |vnodes|;
    var predecessors := vnodes[idx].predecessors;
    for i := 0 to numPred
      invariant forall k :: 0 <= k < i ==> predecessors[k] == Some(LocalPredecessor(Ids(vnodes), idx, k))
      invariant forall k :: i <= k < predecessors.Length ==> predecessors[k] == old(predecessors[k])
    {
      if idx - i - 1 < 0 {
        predecessors[i] := Some(vnodes[numV - i - 1].id);
      } else {
        predecessors[i] := Some(vnodes[idx - i - 1].id);
      }
    }
  }

  /**
   * Slot i names the ring's (i+1)-th node before vnode idx exactly when the count does
   * not pass the start of the list, or starts there.
   */
  lemma LocalPredecessorRightIff(m: int, ids: seq<Id>, idx: nat, i: nat)
    requires SortedRing(m, ids) && idx < |ids| && i < |ids| - 1
    ensures LocalPredecessor(ids, idx, i) == At(ids, idx + |ids| - i - 1) <==> i < idx || idx == 0
  {
  }

  /** Freshly created vnodes in sorted order form an ideal ring once linked. */
  lemma LinkedRingIsIdeal(m: int, ids: seq<Id>, s: nat, net: Net)
    requires SortedRing(m, ids) && s >= 1
    requires forall x :: x in net <==> x in ids
    requires forall i :: 0 <= i < |ids| ==>
               net[ids[i]].successors == LocalSuccessors(ids, i, Nils(s)) && AllMembers({}, net[ids[i]].finger)
    ensures IdealLists(m, ids, s, net)
  {
  }

  lemma {:induction false} KnownOfPrefix(list: seq<Option<Id>>, k: nat)
    requires k <= |list| && forall i :: 0 <= i < |list| ==> (list[i].Some? <==> i < k)
    ensures Known(list) == k
  {
    if |list| > k {
      KnownOfPrefix(list[..|list| - 1], k);
    }
  }

  /** Each vnode is linked to as many others as there are, or as its lists have room for. */
  lemma LinkedCounts(ids: seq<Id>, idx: nat, s: nat)
    requires idx < |ids|
    ensures Known(LocalSuccessors(ids, idx, Nils(s))) == Min(s, |ids| - 1)
    ensures Known(LocalPredecessors(ids, idx, Nils(s + 1))) == Min(s + 1, |ids| - 1)
  {
    KnownOfPrefix(LocalSuccessors(ids, idx, Nils(s)), Min(s, |ids| - 1));
    KnownOfPrefix(LocalPredecessors(ids, idx, Nils(s + 1)), Min(s + 1, |ids| - 1));
  }

  // ---------- Ring.Lookup ----------

  /** The local vnode that starts a lookup: the last one below the key, or the last one. */
  function Nearest(locals: seq<Id>, key: Id, i: nat): (r: nat)
    requires 0 < |locals| && i <= |locals|
    requires forall j :: i <= j < |locals| ==> locals[j] >= key
    ensures r < |locals|
    ensures locals[r] < key || (r == |locals| - 1 && forall j :: 0 <= j < |locals| ==> locals[j] >= key)
    ensures locals[r] < key ==> forall j :: r < j < |locals| ==> locals[j] >= key
  {
    if i == 0 then |locals| - 1
    else if locals[i - 1] < key then i - 1
    else Nearest(locals, key, i - 1)
  }

  /** `nearestVnode`. */
  method NearestVnode(locals: seq<Id>, key: Id) returns (nearest: Id)
    requires |locals| > 0
    ensures nearest == locals[Nearest(locals, key, |locals|)]
  {
    var i := |locals| - 1;
    while i >= 0
      invariant -1 <= i < |locals|
      invariant forall j :: i < j < |locals| ==> locals[j] >= key
      invariant Nearest(locals, key, i + 1) == Nearest(locals, key, |locals|)
    {
      if locals[i] < key {
        return locals[i];
      }
      i := i - 1;
    }
    return locals[|locals| - 1];
  }

  /** The start of a lookup is the closest local vnode before the key; it is the key itself only if it is alone. */
  lemma NearestPrecedesKey(m: int, locals: seq<Id>, key: Id, j: nat)
    requires |locals| > 0 && (forall i :: 0 <= i < |locals| ==> OnCircle(m, locals[i]))
    requires forall a, b :: 0 <= a < b < |locals| ==> locals[a] < locals[b]
    requires OnCircle(m, key) && j < |locals|
    ensures var near := locals[Nearest(locals, key, |locals|)];
            && (locals[j] != key ==> Dist(m, near, key) <= Dist(m, locals[j], key))
            && (near == key <==> |locals| == 1 && locals[0] == key)
  {
  }

  /** A list without its trailing nils. */
  function Trim(list: seq<Option<Id>>): seq<Option<Id>>
    requires |list| > 0 && list[0].Some?
  {
    if list[|list| - 1].None? then Trim(list[..|list| - 1]) else list
  }

  lemma {:induction false} TrimKeepsFront(list: seq<Option<Id>>)
    requires |list| > 0 && list[0].Some? && Contiguous(list)
    ensures Trim(list) <= list && |Trim(list)| > 0
    ensures forall i :: 0 <= i < |Trim(list)| ==> Trim(list)[i].Some?
    ensures forall i :: |Trim(list)| <= i < |list| ==> list[i].None?
  {
    if list[|list| - 1].None? {
      TrimKeepsFront(list[..|list| - 1]);
    }
  }

  /** `Ring.Lookup`, from the hash of the key on. */
  method LookupKey(m: int, s: nat, net: Net, alive: set<Id>, locals: seq<Id>, n: nat, key: Id) returns (reply: Reply)
    requires WellFormed(m, s, net) && OnCircle(m, key) && n >= 1
    requires |locals| > 0 && forall i :: 0 <= i < |locals| ==> locals[i] in net
    ensures n > s ==> reply == Err(TooManyAsked)
    ensures n <= s ==>
      var r := Find(m, s, net, alive, locals[Nearest(locals, key, |locals|)], n, key).reply;
      reply == if r.Err? then r else Ok(Trim(r.value))
  {
    if n > s {
      return Err(TooManyAsked);
    }
    var nearest := NearestVnode(locals, key);
    var calls;
    reply, calls := FindSuccessors(m, s, net, alive, nearest, n, key);
    if reply.Err? {
      return;
    }
    var successors := reply.value;
    ghost var before := successors;
    while successors[|successors| - 1].None?
      invariant |successors| > 0 && successors[0].Some?
      invariant Trim(successors) == Trim(before)
      decreases |successors|
    {
      successors := successors[..|successors| - 1];
    }
    reply := Ok(successors);
  }

  /** A node asked for its own id answers with an error. */
  lemma OwnKeyFails(m: int, s: nat, net: Net, alive: set<Id>, v: Id, n: nat)
    requires WellFormed(m, s, net) && v in net && 1 <= n <= s
    ensures Find(m, s, net, alive, v, n, v).reply == Err(Exhausted)
  {
    var y := FindCases(m, s, net, alive, v, n, v);
    NoLaterSuccessor(v, net[v].successors, n, 1);
  }

  lemma {:induction false} NoLaterSuccessor(v: Id, list: seq<Option<Id>>, n: nat, i: nat)
    requires n >= 1 && forall j :: 0 <= j < Known(list) ==> list[j].Some?
    ensures FromLaterSuccessors(v, list, n, v, i) == Err(Exhausted)
    decreases Known(list) - i
  {
    if i <= Known(list) - n {
      NoLaterSuccessor(v, list, n, i + 1);
    }
  }

  /**
   * On an ideal ring with every peer reachable a lookup from a sorted set of local vnodes
   * fails exactly when a lone local vnode is asked for its own id; otherwise it returns
   * the owner first, whichever ring starts it.
   */
  lemma LookupFailsIff(m: int, ring: seq<Id>, s: nat, net: Net, locals: seq<Id>, n: nat, key: Id)
    requires IdealLists(m, ring, s, net) && 1 <= n <= s && OnCircle(m, key)
    requires |locals| > 0 && (forall i :: 0 <= i < |locals| ==> locals[i] in net)
    requires forall a, b :: 0 <= a < b < |locals| ==> locals[a] < locals[b]
    ensures var r := Find(m, s, net, net.Keys, locals[Nearest(locals, key, |locals|)], n, key).reply;
            && (r.Err? <==> |locals| == 1 && locals[0] == key)
            && (r.Ok? ==> |r.value| == n && r.value[0] == Some(ring[OwnerIndex(ring, key)]) && OwnersOf(ring, key, r.value))
  {
    var near := locals[Nearest(locals, key, |locals|)];
    NearestPrecedesKey(m, locals, key, 0);
    if near == key {
      OwnKeyFails(m, s, net, net.Keys, near, n);
    } else {
      LookupsAgree(m, ring, s, net, near, near, n, key);
      LookupRefinesScan(m, ring, s, net, net.Keys, near, n, key);
    }
  }
}
