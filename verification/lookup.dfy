/**
 * vnode.go FindSuccessors and chord.go Lookup: recursive key location with fallback
 * over unreachable peers.
 */
module Lookup {
  import opened Wrappers
  import opened RingMath
  import opened Nodes
  import CP = ClosestPreceding

  datatype LookupError = Exhausted | TooManyAsked

  type Reply = Result<seq<Option<Id>>, LookupError>

  /** The outcome of a lookup: its reply, and how many remote FindSuccessors calls it made in all. */
  datatype Outcome = Outcome(reply: Reply, calls: nat)

  function TablesOf(v: Id, node: Node): CP.Tables {
    CP.Tables(v, node.successors, node.finger)
  }

  /** The last resort: the first later successor whose arc from v contains the key. */
  function FromLaterSuccessors(v: Id, list: seq<Option<Id>>, n: nat, key: Id, i: nat): (r: Reply)
    requires n >= 1 && forall j :: 0 <= j < Known(list) ==> list[j].Some?
    ensures r.Ok? ==> |r.value| == n && r.value[0].Some?
    decreases Known(list) - i
  {
    if i > Known(list) - n then Err(Exhausted)
    else if BetweenRightIncl(v, list[i].value, key) then Ok(list[i..i + n])
    else FromLaterSuccessors(v, list, n, key, i + 1)
  }

  /** The key lies in the arc from v to its i-th successor, with n entries known from there on. */
  ghost predicate LaterArc(v: Id, list: seq<Option<Id>>, n: nat, key: Id, i: int) {
    1 <= i <= Known(list) - n && i < |list| && list[i].Some? && BetweenRightIncl(v, list[i].value, key)
  }

  /** The answer is the n entries from the least such successor on. */
  ghost predicate IsLaterAnswer(v: Id, list: seq<Option<Id>>, n: nat, key: Id, i: int, answer: seq<Option<Id>>) {
    && LaterArc(v, list, n, key, i) && answer == list[i..i + n]
    && forall j {:trigger LaterArc(v, list, n, key, j)} :: j < i ==> !LaterArc(v, list, n, key, j)
  }

  /** The last resort answers exactly when some later successor will do. */
  lemma {:induction false} LaterSuccessorsExact(v: Id, list: seq<Option<Id>>, n: nat, key: Id, from: nat)
    requires n >= 1 && from >= 1 && forall j :: 0 <= j < Known(list) ==> list[j].Some?
    requires forall j {:trigger LaterArc(v, list, n, key, j)} :: j < from ==> !LaterArc(v, list, n, key, j)
    ensures var r := FromLaterSuccessors(v, list, n, key, from);
            && (r.Ok? <==> exists i :: LaterArc(v, list, n, key, i))
            && (r.Ok? ==> exists i :: IsLaterAnswer(v, list, n, key, i, r.value))
            && (r.Err? ==> r == Err(Exhausted))
    decreases Known(list) - from
  {
    if from <= Known(list) - n {
      if BetweenRightIncl(v, list[from].value, key) {
        assert LaterArc(v, list, n, key, from);
        assert IsLaterAnswer(v, list, n, key, from, list[from..from + n]);
      } else {
        assert !LaterArc(v, list, n, key, from);
        LaterSuccessorsExact(v, list, n, key, from + 1);
      }
    }
  }

  lemma KnownIsFilled(list: seq<Option<Id>>)
    requires Contiguous(list)
    ensures forall j :: 0 <= j < Known(list) ==> list[j].Some?
  {
  }

  /** `FindSuccessors` at node v, over a frozen ring in which only the peers in `alive` answer. */
  ghost function Find(m: int, s: nat, net: Net, alive: set<Id>, v: Id, n: nat, key: Id): (o: Outcome)
    requires WellFormed(m, s, net) && v in net && 1 <= n <= s && OnCircle(m, key)
    ensures o.reply.Ok? ==> |o.reply.value| == n && o.reply.value[0].Some?
    decreases Dist(m, v, key), 1, 0
  {
    if BetweenRightIncl(v, Succ(net, v), key) then Outcome(Ok(net[v].successors[..n]), 0)
    else
      var t := TablesOf(v, net[v]);
      CandidatesAreCloser(m, s, net, v, key);
      KnownIsFilled(net[v].successors);
      var o := TryEach(m, s, net, alive, CP.Yields(m, t, key, CP.Start(t)), n, key, Dist(m, v, key));
      if o.reply.Ok? then o
      else Outcome(FromLaterSuccessors(v, net[v].successors, n, key, 1), o.calls)
  }

  /** Asks the nodes of ys in turn until one answers. */
  ghost function TryEach(m: int, s: nat, net: Net, alive: set<Id>, ys: seq<Id>, n: nat, key: Id, d: int): (o: Outcome)
    requires WellFormed(m, s, net) && 1 <= n <= s && OnCircle(m, key) && d >= 0
    requires forall y :: y in ys ==> y in net && Dist(m, y, key) < d
    ensures o.reply.Ok? ==> |o.reply.value| == n && o.reply.value[0].Some?
    decreases d, 0, |ys|
  {
    if ys == [] then Outcome(Err(Exhausted), 0)
    else
      assert ys[0] in ys;
      var o := if ys[0] in alive then Find(m, s, net, alive, ys[0], n, key) else Outcome(Err(Exhausted), 0);
      if o.reply.Ok? then o.(calls := o.calls + 1)
      else
        var rest := TryEach(m, s, net, alive, ys[1..], n, key, d);
        rest.(calls := rest.calls + o.calls + 1)
  }

  /** Every node the iterator offers is a member strictly closer to the key. */
  lemma CandidatesAreCloser(m: int, s: nat, net: Net, v: Id, key: Id)
    requires WellFormed(m, s, net) && v in net && OnCircle(m, key)
    ensures var t := TablesOf(v, net[v]);
            forall y :: y in CP.Yields(m, t, key, CP.Start(t)) ==>
              y in net && Between(v, key, y) && Dist(m, y, key) < Dist(m, v, key)
  {
    var t := TablesOf(v, net[v]);
    CP.YieldsExactly(m, t, key, CP.Start(t));
    forall y | y in CP.Yields(m, t, key, CP.Start(t))
      ensures y in net && Between(v, key, y) && Dist(m, y, key) < Dist(m, v, key)
    {
      assert CP.Candidate(t, key, y);
      if Some(y) in t.successors {
        var j :| 0 <= j < |t.successors| && t.successors[j] == Some(y);
      } else {
        var j :| 0 <= j < |t.finger| && t.finger[j] == Some(y);
      }
    }
  }

  /** `FindSuccessors`, as vnode.go runs it. */
  method FindSuccessors(m: int, s: nat, net: Net, alive: set<Id>, v: Id, n: nat, key: Id)
    returns (reply: Reply, calls: nat)
    requires WellFormed(m, s, net) && v in net && 1 <= n <= s && OnCircle(m, key)
    ensures Outcome(reply, calls) == Find(m, s, net, alive, v, n, key)
    decreases Dist(m, v, key), 1
  {
    var successors := net[v].successors;
    if BetweenRightIncl(v, successors[0].value, key) {
      return Ok(successors[..n]), 0;
    }
    reply, calls := AskClosest(m, s, net, alive, v, n, key);
    if reply.Ok? {
      return;
    }
    KnownIsFilled(successors);
    reply := AskLaterSuccessors(v, successors, n, key);
  }

  /** The members the iterator at v offers, and what asking them in turn yields. */
  ghost function ViaClosest(m: int, s: nat, net: Net, alive: set<Id>, v: Id, n: nat, key: Id, c: CP.Cursor): Outcome
    requires WellFormed(m, s, net) && v in net && 1 <= n <= s && OnCircle(m, key)
    requires CP.InRange(TablesOf(v, net[v]), c)
    requires CloserMembers(m, net, CP.Yields(m, TablesOf(v, net[v]), key, c), key, Dist(m, v, key))
  {
    TryEach(m, s, net, alive, CP.Yields(m, TablesOf(v, net[v]), key, c), n, key, Dist(m, v, key))
  }

  ghost predicate CloserMembers(m: int, net: Net, ys: seq<Id>, key: Id, d: int) {
    d >= 0 && forall y :: y in ys ==> y in net && Dist(m, y, key) < d
  }

  /** One more node from the iterator: ask it, and go on if it fails. */
  lemma OneMoreClosest(m: int, s: nat, net: Net, alive: set<Id>, v: Id, n: nat, key: Id, c: CP.Cursor)
    requires WellFormed(m, s, net) && v in net && 1 <= n <= s && OnCircle(m, key)
    requires CP.InRange(TablesOf(v, net[v]), c)
    requires CloserMembers(m, net, CP.Yields(m, TablesOf(v, net[v]), key, c), key, Dist(m, v, key))
    ensures var (y, c') := CP.Step(m, TablesOf(v, net[v]), key, c);
            y.None? ==> ViaClosest(m, s, net, alive, v, n, key, c) == Outcome(Err(Exhausted), 0)
    ensures var (y, c') := CP.Step(m, TablesOf(v, net[v]), key, c);
            y.Some? ==>
              && y.value in net && Dist(m, y.value, key) < Dist(m, v, key)
              && CloserMembers(m, net, CP.Yields(m, TablesOf(v, net[v]), key, c'), key, Dist(m, v, key))
    ensures var (y, c') := CP.Step(m, TablesOf(v, net[v]), key, c);
            y.Some? ==>
              var o := if y.value in alive then Find(m, s, net, alive, y.value, n, key) else Outcome(Err(Exhausted), 0);
              var rest := ViaClosest(m, s, net, alive, v, n, key, c');
              var all := ViaClosest(m, s, net, alive, v, n, key, c);
              all == if o.reply.Ok? then o.(calls := o.calls + 1) else rest.(calls := rest.calls + o.calls + 1)
  {
    var t := TablesOf(v, net[v]);
    var (y, c') := CP.Step(m, t, key, c);
    if y.Some? {
      var ys := CP.Yields(m, t, key, c);
      assert ys == [y.value] + CP.Yields(m, t, key, c');
      assert ys[1..] == CP.Yields(m, t, key, c');
      assert ys[0] in ys;
    }
  }

  /** The loop of `FindSuccessors` over the closest preceding nodes. */
  method AskClosest(m: int, s: nat, net: Net, alive: set<Id>, v: Id, n: nat, key: Id)
    returns (reply: Reply, calls: nat)
    requires WellFormed(m, s, net) && v in net && 1 <= n <= s && OnCircle(m, key)
    ensures var t := TablesOf(v, net[v]);
            && CloserMembers(m, net, CP.Yields(m, t, key, CP.Start(t)), key, Dist(m, v, key))
            && Outcome(reply, calls) == ViaClosest(m, s, net, alive, v, n, key, CP.Start(t))
    decreases Dist(m, v, key), 0
  {
    CandidatesAreCloser(m, s, net, v, key);
    assert CP.InRange(TablesOf(v, net[v]), CP.Start(TablesOf(v, net[v])));
    assert CloserMembers(m, net, CP.Yields(m, TablesOf(v, net[v]), key, CP.Start(TablesOf(v, net[v]))), key, Dist(m, v, key));
    hide WellFormed, Find, TryEach, ViaClosest, CloserMembers, CP.Step, CP.Yields, CP.Start, CP.InRange;
    var t := TablesOf(v, net[v]);
    var cp := new CP.Iterator(m, t, key);
    calls := 0;
    while true
      invariant cp.m == m && cp.tables == t && cp.key == key && CP.InRange(t, cp.State())
      invariant CloserMembers(m, net, CP.Yields(m, t, key, cp.State()), key, Dist(m, v, key))
      invariant var all, left := ViaClosest(m, s, net, alive, v, n, key, CP.Start(t)),
                                 ViaClosest(m, s, net, alive, v, n, key, cp.State());
                all == left.(calls := left.calls + calls)
      invariant fresh(cp)
      decreases cp.successorIdx + cp.fingerIdx + 2
    {
      OneMoreClosest(m, s, net, alive, v, n, key, cp.State());
      var closest := cp.Next();
      if closest.None? {
        return Err(Exhausted), calls;
      }
      var more := 0;
      if closest.value in alive {
        reply, more := FindSuccessors(m, s, net, alive, closest.value, n, key);
        if reply.Ok? {
          return reply, calls + more + 1;
        }
      }
      calls := calls + more + 1;
    }
  }

  /** The end of `FindSuccessors`: is the key between v and a non-immediate successor? */
  method AskLaterSuccessors(v: Id, successors: seq<Option<Id>>, n: nat, key: Id) returns (reply: Reply)
    requires n >= 1 && forall j :: 0 <= j < Known(successors) ==> successors[j].Some?
    ensures reply == FromLaterSuccessors(v, successors, n, key, 1)
    ensures reply.Ok? <==> exists i :: LaterArc(v, successors, n, key, i)
    ensures reply.Ok? ==> exists i :: IsLaterAnswer(v, successors, n, key, i, reply.value)
    ensures reply.Err? ==> reply == Err(Exhausted)
  {
    LaterSuccessorsExact(v, successors, n, key, 1);
    hide LaterArc, IsLaterAnswer;
    var known := KnownSuccessors(successors);
    var i := 1;
    while i <= known - n
      invariant 1 <= i
      invariant FromLaterSuccessors(v, successors, n, key, i) == FromLaterSuccessors(v, successors, n, key, 1)
    {
      if BetweenRightIncl(v, successors[i].value, key) {
        var remain := successors[i..];
        if |remain| > n {
          remain := remain[..n];
        }
        assert remain == successors[i..i + n];
        return Ok(remain);
      }
      i := i + 1;
    }
    return Err(Exhausted);
  }

  /** `knownSuccessors`. */
  method KnownSuccessors(list: seq<Option<Id>>) returns (known: nat)
    ensures known == Known(list)
  {
    known := 0;
    for i := 0 to |list|
      invariant known == Known(list[..i])
    {
      assert list[..i + 1][..i] == list[..i];
      if list[i].Some? {
        known := i + 1;
      }
    }
    assert list[..|list|] == list;
  }

  // ---------- all peers reachable ----------

  /** No node is its own successor. */
  ghost predicate NoSelfLoops(m: int, s: nat, net: Net)
    requires WellFormed(m, s, net)
  {
    forall v :: v in net ==> Succ(net, v) != v
  }

  /** The closest preceding node is known to v whenever v's own arc misses the key. */
  lemma FirstHopExists(m: int, s: nat, net: Net, v: Id, key: Id)
    requires WellFormed(m, s, net) && NoSelfLoops(m, s, net) && v in net && OnCircle(m, key) && key != v
    requires !BetweenRightIncl(v, Succ(net, v), key)
    ensures CP.Yields(m, TablesOf(v, net[v]), key, CP.Start(TablesOf(v, net[v]))) != []
  {
  }

  /**
   * With every peer reachable a lookup never fails: it ends at the node u whose arc
   * contains the key and returns u's list.
   */
  lemma {:induction false} LookupEndsAtArc(m: int, s: nat, net: Net, v: Id, n: nat, key: Id) returns (u: Id)
    requires WellFormed(m, s, net) && NoSelfLoops(m, s, net)
    requires v in net && 1 <= n <= s && OnCircle(m, key) && key != v
    ensures u in net && BetweenRightIncl(u, Succ(net, u), key)
    ensures Find(m, s, net, net.Keys, v, n, key).reply == Ok(net[u].successors[..n])
    decreases Dist(m, v, key)
  {
    if BetweenRightIncl(v, Succ(net, v), key) {
      u := v;
    } else {
      var t := TablesOf(v, net[v]);
      var ys := CP.Yields(m, t, key, CP.Start(t));
      FirstHopExists(m, s, net, v, key);
      CandidatesAreCloser(m, s, net, v, key);
      assert ys[0] in ys;
      u := LookupEndsAtArc(m, s, net, ys[0], n, key);
    }
  }

  // ---------- rings whose successor lists are in order ----------

  /** The filled entries of a list are the consecutive ring nodes from the key's owner on. */
  ghost predicate OwnersOf(ring: seq<Id>, key: Id, list: seq<Option<Id>>)
    requires |ring| >= 2
  {
    forall j :: 0 <= j < |list| && list[j].Some? ==>
      j < |ring| - 1 && list[j].value == At(ring, OwnerIndex(ring, key) + j)
  }

  lemma ArcAnswersKey(m: int, ring: seq<Id>, list: seq<Option<Id>>, i: nat, from: nat, n: nat, key: Id)
    requires SortedRing(m, ring) && i < |ring| && FollowsRing(ring, i, list) && OnCircle(m, key)
    requires from + n <= |list| && 1 <= n && list[from].Some?
    requires key != At(ring, i + from) && BetweenRightIncl(At(ring, i + from), At(ring, i + from + 1), key)
    ensures OwnersOf(ring, key, list[from..from + n])
  {
  }

  lemma ArcSplits(m: int, v: Id, x: Id, y: Id, key: Id)
    requires OnCircle(m, v) && OnCircle(m, x) && OnCircle(m, y) && OnCircle(m, key)
    requires Dist(m, v, x) < Dist(m, v, y)
    requires BetweenRightIncl(v, y, key) && !BetweenRightIncl(v, x, key) && key != v
    ensures key != x && BetweenRightIncl(x, y, key)
  {
  }

  lemma {:induction false} LaterSuccessorsAnswer(m: int, ring: seq<Id>, list: seq<Option<Id>>, i: nat, n: nat, key: Id, from: nat)
    requires SortedRing(m, ring) && i < |ring| && FollowsRing(ring, i, list) && OnCircle(m, key) && key != ring[i]
    requires 1 <= from && 1 <= n
    requires forall j :: 0 <= j < Known(list) ==> list[j].Some?
    requires from <= Known(list) ==> !BetweenRightIncl(ring[i], list[from - 1].value, key)
    ensures GoodReply(ring, key, FromLaterSuccessors(ring[i], list, n, key, from))
    decreases Known(list) - from
  {
    if from > Known(list) - n {
    } else if BetweenRightIncl(ring[i], list[from].value, key) {
      assert list[from - 1].value == At(ring, i + 1 + (from - 1));
      assert list[from].value == At(ring, i + 1 + from);
      WalkGrows(m, ring, i, from, from + 1);
      ArcSplits(m, ring[i], At(ring, i + from), At(ring, i + from + 1), key);
      ArcAnswersKey(m, ring, list, i, from, n, key);
    } else {
      LaterSuccessorsAnswer(m, ring, list, i, n, key, from + 1);
    }
  }

  /** A reply that is an error, or a list of the key's owner and ring nodes that follow it. */
  ghost predicate GoodReply(ring: seq<Id>, key: Id, r: Reply)
    requires |ring| >= 2
  {
    r.Ok? ==> |r.value| > 0 && r.value[0].Some? && OwnersOf(ring, key, r.value)
  }

  /** An answer obtained from a list of peers is the answer of one reachable peer among them. */
  lemma {:induction false} AnswerComesFromOne(m: int, s: nat, net: Net, alive: set<Id>, ys: seq<Id>, n: nat, key: Id, d: int)
    returns (y: Id)
    requires WellFormed(m, s, net) && 1 <= n <= s && OnCircle(m, key) && d >= 0
    requires forall y :: y in ys ==> y in net && Dist(m, y, key) < d
    requires TryEach(m, s, net, alive, ys, n, key, d).reply.Ok?
    ensures y in ys && y in alive
    ensures TryEach(m, s, net, alive, ys, n, key, d).reply == Find(m, s, net, alive, y, n, key).reply
    decreases |ys|
  {
    y := ys[0];
    assert y in ys;
    if !(y in alive && Find(m, s, net, alive, y, n, key).reply.Ok?) {
      y := AnswerComesFromOne(m, s, net, alive, ys[1..], n, key, d);
    }
  }

  /** An answer is v's own, or the answer of a reachable peer closer to the key, or v's last resort. */
  lemma FindCases(m: int, s: nat, net: Net, alive: set<Id>, v: Id, n: nat, key: Id) returns (y: Option<Id>)
    requires WellFormed(m, s, net) && v in net && 1 <= n <= s && OnCircle(m, key)
    requires !BetweenRightIncl(v, Succ(net, v), key)
    ensures forall j :: 0 <= j < Known(net[v].successors) ==> net[v].successors[j].Some?
    ensures y.None? ==>
      Find(m, s, net, alive, v, n, key).reply == FromLaterSuccessors(v, net[v].successors, n, key, 1)
    ensures y.Some? ==>
      && y.value in net && y.value in alive && Between(v, key, y.value)
      && Dist(m, y.value, key) < Dist(m, v, key)
      && Find(m, s, net, alive, v, n, key).reply == Find(m, s, net, alive, y.value, n, key).reply
  {
    var t := TablesOf(v, net[v]);
    var ys := CP.Yields(m, t, key, CP.Start(t));
    CandidatesAreCloser(m, s, net, v, key);
    KnownIsFilled(net[v].successors);
    y := None;
    if TryEach(m, s, net, alive, ys, n, key, Dist(m, v, key)).reply.Ok? {
      var p := AnswerComesFromOne(m, s, net, alive, ys, n, key, Dist(m, v, key));
      y := Some(p);
    }
  }

  lemma OwnArcAnswers(m: int, ring: seq<Id>, list: seq<Option<Id>>, i: nat, n: nat, key: Id)
    requires SortedRing(m, ring) && i < |ring| && FollowsRing(ring, i, list) && OnCircle(m, key) && key != ring[i]
    requires 1 <= n <= |list| && list[0].Some? && BetweenRightIncl(ring[i], list[0].value, key)
    ensures GoodReply(ring, key, Ok(list[..n]))
  {
  }

  /**
   * Lookup refines the linear scan: whichever peers are unreachable and whatever ring
   * members the fingers name, the filled entries of any answer are the consecutive ring
   * nodes starting at the key's owner, and the owner itself is there.
   */
  lemma {:induction false} LookupRefinesScan(m: int, ring: seq<Id>, s: nat, net: Net, alive: set<Id>, v: Id, n: nat, key: Id)
    requires IdealLists(m, ring, s, net) && v in net && 1 <= n <= s && OnCircle(m, key) && key != v
    ensures GoodReply(ring, key, Find(m, s, net, alive, v, n, key).reply)
    decreases Dist(m, v, key)
  {
    var i := IndexOf(ring, v);
    var list := net[v].successors;
    assert FollowsRing(ring, i, list);
    if BetweenRightIncl(v, Succ(net, v), key) {
      OwnArcAnswers(m, ring, list, i, n, key);
    } else {
      var y := FindCases(m, s, net, alive, v, n, key);
      if y.Some? {
        LookupRefinesScan(m, ring, s, net, alive, y.value, n, key);
      } else {
        LaterSuccessorsAnswer(m, ring, list, i, n, key, 1);
      }
    }
  }

  // ---------- when a lookup answers ----------

  /** The peer is reachable and answers. */
  ghost predicate Answers(m: int, s: nat, net: Net, alive: set<Id>, y: Id, n: nat, key: Id)
    requires WellFormed(m, s, net) && 1 <= n <= s && OnCircle(m, key)
  {
    y in net && y in alive && Find(m, s, net, alive, y, n, key).reply.Ok?
  }

  ghost predicate SomeAnswers(m: int, s: nat, net: Net, alive: set<Id>, ys: seq<Id>, n: nat, key: Id)
    requires WellFormed(m, s, net) && 1 <= n <= s && OnCircle(m, key)
  {
    exists y {:trigger Answers(m, s, net, alive, y, n, key)} :: y in ys && Answers(m, s, net, alive, y, n, key)
  }

  /** The k-th of the nodes is the first that answers. */
  ghost predicate FirstToAnswer(m: int, s: nat, net: Net, alive: set<Id>, ys: seq<Id>, n: nat, key: Id, k: nat)
    requires WellFormed(m, s, net) && 1 <= n <= s && OnCircle(m, key)
  {
    k < |ys| && Answers(m, s, net, alive, ys[k], n, key) && !SomeAnswers(m, s, net, alive, ys[..k], n, key)
  }

  /** The nodes that v's closest-preceding iterator offers, in order. */
  function Asked(m: int, net: Net, v: Id, key: Id): seq<Id>
    requires v in net
  {
    CP.Yields(m, TablesOf(v, net[v]), key, CP.Start(TablesOf(v, net[v])))
  }

  lemma FirstIsSome(m: int, s: nat, net: Net, alive: set<Id>, ys: seq<Id>, n: nat, key: Id, k: nat)
    requires WellFormed(m, s, net) && 1 <= n <= s && OnCircle(m, key) && FirstToAnswer(m, s, net, alive, ys, n, key, k)
    ensures SomeAnswers(m, s, net, alive, ys, n, key) && k < |ys|
  {
    assert ys[k] in ys;
  }

  lemma FirstOfRest(m: int, s: nat, net: Net, alive: set<Id>, ys: seq<Id>, n: nat, key: Id, k: nat)
    requires WellFormed(m, s, net) && 1 <= n <= s && OnCircle(m, key) && FirstToAnswer(m, s, net, alive, ys, n, key, k) && k > 0
    ensures !Answers(m, s, net, alive, ys[0], n, key)
    ensures FirstToAnswer(m, s, net, alive, ys[1..], n, key, k - 1) && ys[1..][k - 1] == ys[k]
  {
    hide Answers, WellFormed;
    assert ys[..k][0] == ys[0] && ys[0] in ys[..k];
    forall y | y in ys[1..][..k - 1] ensures y in ys[..k] {
      var i :| 0 <= i < k - 1 && ys[1..][..k - 1][i] == y;
      assert ys[..k][i + 1] == y;
    }
  }

  /** Peers are asked until one answers. */
  lemma {:induction false} TriesUntilAnswer(m: int, s: nat, net: Net, alive: set<Id>, ys: seq<Id>, n: nat, key: Id, d: int)
    requires WellFormed(m, s, net) && 1 <= n <= s && OnCircle(m, key) && d >= 0
    requires forall y :: y in ys ==> y in net && Dist(m, y, key) < d
    ensures TryEach(m, s, net, alive, ys, n, key, d).reply.Ok? <==> SomeAnswers(m, s, net, alive, ys, n, key)
    decreases |ys|
  {
    if ys == [] {
      assert !TryEach(m, s, net, alive, ys, n, key, d).reply.Ok?;
      assert !SomeAnswers(m, s, net, alive, ys, n, key);
    } else {
      assert ys[0] in ys;
      TriesUntilAnswer(m, s, net, alive, ys[1..], n, key, d);
      SomeSplits(m, s, net, alive, ys, n, key);
      hide Find, WellFormed, SomeAnswers;
    }
  }

  lemma SomeSplits(m: int, s: nat, net: Net, alive: set<Id>, ys: seq<Id>, n: nat, key: Id)
    requires WellFormed(m, s, net) && 1 <= n <= s && OnCircle(m, key) && ys != []
    ensures SomeAnswers(m, s, net, alive, ys, n, key) <==>
              Answers(m, s, net, alive, ys[0], n, key) || SomeAnswers(m, s, net, alive, ys[1..], n, key)
  {
    hide Answers, WellFormed;
    assert forall y :: y in ys <==> y == ys[0] || y in ys[1..];
  }

  /** The first that answers decides the reply. */
  lemma {:induction false} FirstAnswerWins(m: int, s: nat, net: Net, alive: set<Id>, ys: seq<Id>, n: nat, key: Id, d: int, k: nat)
    requires WellFormed(m, s, net) && 1 <= n <= s && OnCircle(m, key) && d >= 0
    requires forall y :: y in ys ==> y in net && Dist(m, y, key) < d
    requires FirstToAnswer(m, s, net, alive, ys, n, key, k)
    ensures ys[k] in net && TryEach(m, s, net, alive, ys, n, key, d).reply == Find(m, s, net, alive, ys[k], n, key).reply
    decreases |ys|
  {
    assert ys[0] in ys && ys[k] in ys;
    if k > 0 {
      FirstOfRest(m, s, net, alive, ys, n, key, k);
      FirstAnswerWins(m, s, net, alive, ys[1..], n, key, d, k - 1);
    }
    hide Find, WellFormed, SomeAnswers, FirstToAnswer;
  }

  /** One call for each of the nodes, and those that the reachable ones make in turn. */
  ghost function CallsOf(m: int, s: nat, net: Net, alive: set<Id>, ys: seq<Id>, n: nat, key: Id): nat
    requires WellFormed(m, s, net) && 1 <= n <= s && OnCircle(m, key)
    requires forall y :: y in ys ==> y in net
  {
    if ys == [] then 0
    else
      var last := ys[|ys| - 1];
      CallsOf(m, s, net, alive, ys[..|ys| - 1], n, key) + 1
      + if last in alive then Find(m, s, net, alive, last, n, key).calls else 0
  }

  lemma {:induction false} CallsOfFirst(m: int, s: nat, net: Net, alive: set<Id>, ys: seq<Id>, n: nat, key: Id)
    requires WellFormed(m, s, net) && 1 <= n <= s && OnCircle(m, key) && ys != []
    requires forall y :: y in ys ==> y in net
    ensures CallsOf(m, s, net, alive, ys, n, key) ==
            1 + (if ys[0] in alive then Find(m, s, net, alive, ys[0], n, key).calls else 0)
            + CallsOf(m, s, net, alive, ys[1..], n, key)
    decreases |ys|
  {
    hide Find, WellFormed;
    if |ys| > 1 {
      var front := ys[..|ys| - 1];
      CallsOfFirst(m, s, net, alive, front, n, key);
      assert front[1..] == ys[1..][..|ys| - 2] && ys[1..][|ys| - 2] == ys[|ys| - 1];
    } else {
      assert ys[..0] == [] && ys[1..] == [];
    }
  }

  /** Asking stops at the first that answers: only those up to it cost calls. */
  lemma {:induction false} AskedUpTo(m: int, s: nat, net: Net, alive: set<Id>, ys: seq<Id>, n: nat, key: Id, d: int, k: nat)
    requires WellFormed(m, s, net) && 1 <= n <= s && OnCircle(m, key) && d >= 0 && k <= |ys|
    requires forall y :: y in ys ==> y in net && Dist(m, y, key) < d
    requires k < |ys| ==> FirstToAnswer(m, s, net, alive, ys, n, key, k)
    requires k == |ys| ==> !SomeAnswers(m, s, net, alive, ys, n, key)
    ensures var asked := if k < |ys| then ys[..k + 1] else ys;
            TryEach(m, s, net, alive, ys, n, key, d).calls == CallsOf(m, s, net, alive, asked, n, key)
    decreases |ys|
  {
    if ys != [] {
      var asked := if k < |ys| then ys[..k + 1] else ys;
      assert ys[0] in ys && asked[0] == ys[0] && forall y :: y in asked ==> y in ys;
      CallsOfFirst(m, s, net, alive, asked, n, key);
      if k == 0 {
        assert asked[1..] == [];
      } else {
        if k < |ys| {
          FirstOfRest(m, s, net, alive, ys, n, key, k);
          assert asked[1..] == ys[1..][..k];
        } else {
          SomeSplits(m, s, net, alive, ys, n, key);
        }
        AskedUpTo(m, s, net, alive, ys[1..], n, key, d, k - 1);
      }
      hide Find, WellFormed, SomeAnswers, CallsOf;
    }
  }

  /**
   * A node answers out of its own list when the key is in its arc. Otherwise the reply is
   * that of the first closest preceding node that is reachable and answers; when none does,
   * its own last resort's. So it answers exactly when one of these does.
   */
  lemma FindAnswersIff(m: int, s: nat, net: Net, alive: set<Id>, v: Id, n: nat, key: Id)
    requires WellFormed(m, s, net) && v in net && 1 <= n <= s && OnCircle(m, key)
    ensures BetweenRightIncl(v, Succ(net, v), key) ==>
      Find(m, s, net, alive, v, n, key).reply == Ok(net[v].successors[..n])
    ensures !BetweenRightIncl(v, Succ(net, v), key) ==>
      var ys, list, r := Asked(m, net, v, key), net[v].successors, Find(m, s, net, alive, v, n, key).reply;
      && (r.Ok? <==> SomeAnswers(m, s, net, alive, ys, n, key) || exists i :: LaterArc(v, list, n, key, i))
      && (forall k: nat {:trigger FirstToAnswer(m, s, net, alive, ys, n, key, k)} ::
            FirstToAnswer(m, s, net, alive, ys, n, key, k) ==> ys[k] in net && r == Find(m, s, net, alive, ys[k], n, key).reply)
      && (r.Ok? && !SomeAnswers(m, s, net, alive, ys, n, key) ==> exists i :: IsLaterAnswer(v, list, n, key, i, r.value))
  {
    var ys := Asked(m, net, v, key);
    CandidatesAreCloser(m, s, net, v, key);
    KnownIsFilled(net[v].successors);
    LaterSuccessorsExact(v, net[v].successors, n, key, 1);
    TriesUntilAnswer(m, s, net, alive, ys, n, key, Dist(m, v, key));
    hide Answers, SomeAnswers, LaterArc, IsLaterAnswer, CP.Yields, TryEach, FromLaterSuccessors, FirstToAnswer;
    forall k: nat | FirstToAnswer(m, s, net, alive, ys, n, key, k)
      ensures SomeAnswers(m, s, net, alive, ys, n, key)
      ensures k < |ys| && ys[k] in net
      ensures TryEach(m, s, net, alive, ys, n, key, Dist(m, v, key)).reply == Find(m, s, net, alive, ys[k], n, key).reply {
      FirstIsSome(m, s, net, alive, ys, n, key, k);
      FirstAnswerWins(m, s, net, alive, ys, n, key, Dist(m, v, key), k);
    }
  }

  /** And it costs no calls, or those of the nodes asked up to the first that answers. */
  lemma FindCalls(m: int, s: nat, net: Net, alive: set<Id>, v: Id, n: nat, key: Id, k: nat)
    requires WellFormed(m, s, net) && v in net && 1 <= n <= s && OnCircle(m, key) && k <= |Asked(m, net, v, key)|
    requires var ys := Asked(m, net, v, key);
             if k < |ys| then FirstToAnswer(m, s, net, alive, ys, n, key, k) else !SomeAnswers(m, s, net, alive, ys, n, key)
    ensures var ys := Asked(m, net, v, key);
            var asked := if k < |ys| then ys[..k + 1] else ys;
            && (forall y :: y in asked ==> y in net)
            && Find(m, s, net, alive, v, n, key).calls ==
               if BetweenRightIncl(v, Succ(net, v), key) then 0 else CallsOf(m, s, net, alive, asked, n, key)
  {
    var ys := Asked(m, net, v, key);
    CandidatesAreCloser(m, s, net, v, key);
    KnownIsFilled(net[v].successors);
    AskedUpTo(m, s, net, alive, ys, n, key, Dist(m, v, key), k);
    hide Answers, SomeAnswers, FirstToAnswer, CP.Yields, CP.Start, TryEach, CallsOf, FromLaterSuccessors;
  }

  /**
   * Whatever peers are down, a node answers on its own whenever it knows n nodes from the
   * key's owner on: with the ideal list, the owner in slot j and j + n entries known.
   */
  lemma KnownOwnerAnswers(m: int, ring: seq<Id>, s: nat, net: Net, alive: set<Id>, v: Id, n: nat, key: Id, j: nat)
    requires IdealLists(m, ring, s, net) && v in net && 1 <= n <= s && OnCircle(m, key) && key != v
    requires j + n <= Known(net[v].successors) && net[v].successors[j] == Some(ring[OwnerIndex(ring, key)])
    ensures Find(m, s, net, alive, v, n, key).reply.Ok?
  {
    var list, o := net[v].successors, OwnerIndex(ring, key);
    var i := IndexOf(ring, v);
    assert FollowsRing(ring, i, list);
    assert ring[o] != v by {
      WalkGrows(m, ring, i, 0, j + 1);
    }
    OwnerIsNearestClockwise(m, ring, key, i);
    assert BetweenRightIncl(v, ring[o], key);
    FindAnswersIff(m, s, net, alive, v, n, key);
    hide Find, SomeAnswers;
    if j > 0 {
      assert LaterArc(v, list, n, key, j);
    }
  }
}
