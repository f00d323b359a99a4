/**
 * The links that joins and stabilisation move: successors[0] and the
 * predecessor of every node, and the three kinds of step that move them (section 5.1 of
 * Stoica et al., "Chord" (SIGCOMM 2001), as vnode.go and chord.go take them).
 */
module Links {
  import opened RingMath

  type Id = int

  /** Every node's first successor, and the predecessor of those that know one. */
  datatype Ptrs = Ptrs(succ: map<Id, Id>, pred: map<Id, Id>)

  /** The successor of v. */
  function Next(succ: map<Id, Id>, v: Id): Id
    requires v in succ
  {
    succ[v]
  }

  /** Successors are members on the circle, and no node succeeds itself. */
  ghost predicate Closed(m: int, succ: map<Id, Id>) {
    && (forall v {:trigger v in succ} :: v in succ ==> OnCircle(m, v))
    && (forall v {:trigger Next(succ, v)} :: v in succ ==> Next(succ, v) in succ.Keys && Next(succ, v) != v)
  }

  /** Following successors from a arrives at b without leaving the arc (a, b]. */
  ghost predicate Path(m: int, succ: map<Id, Id>, a: Id, b: Id)
    requires Closed(m, succ) && a in succ && b in succ
    decreases Dist(m, a, b)
  {
    a == b || (BetweenRightIncl(a, b, Next(succ, a)) && Path(m, succ, Next(succ, a), b))
  }

  /** The node k successor steps after x. */
  ghost function Iter(m: int, succ: map<Id, Id>, x: Id, k: nat): (y: Id)
    requires Closed(m, succ) && x in succ
    ensures y in succ
    decreases k
  {
    if k == 0 then x else Iter(m, succ, Next(succ, x), k - 1)
  }

  /** Following successors from x arrives at y some time. */
  ghost predicate Reaches(m: int, succ: map<Id, Id>, x: Id, y: Id)
    requires Closed(m, succ) && x in succ
  {
    exists k: nat :: Iter(m, succ, x, k) == y
  }

  // ---------- the steps ----------

  /** A new node j takes over the successor of the node u whose arc it falls in. */
  predicate JoinAllowed(p: Ptrs, j: Id, u: Id) {
    j !in p.succ && u in p.succ && Between(u, Next(p.succ, u), j)
  }

  function JoinStep(p: Ptrs, j: Id, u: Id): Ptrs
    requires JoinAllowed(p, j, u)
  {
    p.(succ := p.succ[j := Next(p.succ, u)])
  }

  /** v takes its successor's predecessor for its successor if that one is closer. */
  function CheckStep(p: Ptrs, v: Id): Ptrs
    requires v in p.succ
  {
    var s := Next(p.succ, v);
    if s in p.pred && Between(v, s, p.pred[s]) then p.(succ := p.succ[v := p.pred[s]]) else p
  }

  /** v tells its successor, which takes v for its predecessor if it had none or a farther one. */
  function NotifyStep(p: Ptrs, v: Id): Ptrs
    requires v in p.succ
  {
    var s := Next(p.succ, v);
    if s !in p.pred || Between(p.pred[s], s, v) then p.(pred := p.pred[s := v]) else p
  }

  /** A stabilisation step of some node. */
  ghost predicate StabiliseStep(p: Ptrs, p': Ptrs) {
    exists v {:trigger CheckStep(p, v)} {:trigger NotifyStep(p, v)} ::
      v in p.succ && (p' == CheckStep(p, v) || p' == NotifyStep(p, v))
  }

  // ---------- the invariant ----------

  /** No arc from a node to its successor jumps over a core member. */
  ghost predicate CoreNotSkipped(core: set<Id>, succ: map<Id, Id>) {
    forall v, b {:trigger Next(succ, v), b in core} :: v in succ && b in core ==> !Between(v, Next(succ, v), b)
  }

  /** A predecessor pointer names a member whose successors lead to its holder inside the arc. */
  ghost predicate PredecessorsLead(m: int, p: Ptrs)
    requires Closed(m, p.succ)
  {
    && (forall x {:trigger p.pred[x]} :: x in p.pred ==> x in p.succ && p.pred[x] in p.succ && p.pred[x] != x)
    && (forall x {:trigger Path(m, p.succ, p.pred[x], x)} :: x in p.pred ==> Path(m, p.succ, p.pred[x], x))
  }

  ghost predicate Inv(m: int, core: set<Id>, p: Ptrs) {
    && Closed(m, p.succ)
    && core <= p.succ.Keys
    && CoreNotSkipped(core, p.succ)
    && PredecessorsLead(m, p)
  }

  // ---------- paths ----------

  /** Every core member lies on the way from every node. */
  lemma {:induction false} CoreOnPath(m: int, core: set<Id>, succ: map<Id, Id>, v: Id, b: Id)
    requires Closed(m, succ) && CoreNotSkipped(core, succ) && v in succ && b in core && b in succ
    ensures Path(m, succ, v, b)
    decreases Dist(m, v, b)
  {
    if v != b {
      assert !Between(v, Next(succ, v), b);
      CoreOnPath(m, core, succ, Next(succ, v), b);
    }
  }

  lemma {:induction false} PathJoins(m: int, succ: map<Id, Id>, a: Id, b: Id, c: Id)
    requires Closed(m, succ) && a in succ && b in succ && c in succ
    requires Path(m, succ, a, b) && Path(m, succ, b, c) && Dist(m, a, b) <= Dist(m, a, c)
    ensures Path(m, succ, a, c)
    decreases Dist(m, a, b)
  {
    if a != b && a != c {
      PathJoins(m, succ, Next(succ, a), b, c);
    }
  }

  /** Splicing p into v's arc, when p leads on to v's old successor, keeps every path. */
  lemma {:induction false} SpliceKeepsPath(m: int, succ: map<Id, Id>, v: Id, p: Id, a: Id, b: Id)
    requires Closed(m, succ) && v in succ && p in succ && a in succ && b in succ
    requires Between(v, Next(succ, v), p) && Path(m, succ, p, Next(succ, v))
    requires Path(m, succ, a, b)
    ensures Closed(m, succ[v := p]) && Path(m, succ[v := p], a, b)
    decreases Dist(m, a, b)
  {
    UpdateKeepsClosed(m, succ, v, p);
    if a != b {
      if a == v {
        PathJoins(m, succ, p, Next(succ, v), b);
        SpliceKeepsPath(m, succ, v, p, p, b);
      } else {
        SpliceKeepsPath(m, succ, v, p, Next(succ, a), b);
      }
    }
  }

  /** A new node changes no existing path. */
  lemma {:induction false} JoinKeepsPath(m: int, succ: map<Id, Id>, j: Id, s: Id, a: Id, b: Id)
    requires Closed(m, succ) && j !in succ && s in succ && OnCircle(m, j) && a in succ && b in succ
    requires Path(m, succ, a, b)
    ensures Closed(m, succ[j := s]) && Path(m, succ[j := s], a, b)
    decreases Dist(m, a, b)
  {
    UpdateKeepsClosed(m, succ, j, s);
    if a != b {
      JoinKeepsPath(m, succ, j, s, Next(succ, a), b);
    }
  }

  lemma UpdateKeepsClosed(m: int, succ: map<Id, Id>, v: Id, q: Id)
    requires Closed(m, succ) && q in succ && q != v && OnCircle(m, v)
    ensures Closed(m, succ[v := q])
  {
    var succ' := succ[v := q];
    forall w | w in succ' ensures Next(succ', w) in succ' && Next(succ', w) != w {
      assert w != v ==> Next(succ', w) == Next(succ, w);
    }
  }

  lemma {:induction false} PathReaches(m: int, succ: map<Id, Id>, a: Id, b: Id)
    requires Closed(m, succ) && a in succ && b in succ && Path(m, succ, a, b)
    ensures Reaches(m, succ, a, b)
    decreases Dist(m, a, b)
  {
    if a == b {
      assert Iter(m, succ, a, 0) == b;
    } else {
      PathReaches(m, succ, Next(succ, a), b);
      var k: nat :| Iter(m, succ, Next(succ, a), k) == b;
      assert Iter(m, succ, a, k + 1) == b;
    }
  }

  lemma {:induction false} IterAdds(m: int, succ: map<Id, Id>, x: Id, i: nat, j: nat)
    requires Closed(m, succ) && x in succ
    ensures Iter(m, succ, x, i + j) == Iter(m, succ, Iter(m, succ, x, i), j)
    decreases i
  {
    if i > 0 {
      IterAdds(m, succ, Next(succ, x), i - 1, j);
    }
  }

  lemma ReachesTrans(m: int, succ: map<Id, Id>, x: Id, y: Id, z: Id)
    requires Closed(m, succ) && x in succ && y in succ && Reaches(m, succ, x, y) && Reaches(m, succ, y, z)
    ensures Reaches(m, succ, x, z)
  {
    var i: nat :| Iter(m, succ, x, i) == y;
    var j: nat :| Iter(m, succ, y, j) == z;
    IterAdds(m, succ, x, i, j);
  }

  /** Each old edge is still a path. */
  ghost predicate EdgesKept(m: int, succ: map<Id, Id>, succ': map<Id, Id>)
    requires Closed(m, succ) && Closed(m, succ') && succ.Keys <= succ'.Keys
  {
    forall v {:trigger Path(m, succ', v, Next(succ, v))} :: v in succ ==> Path(m, succ', v, Next(succ, v))
  }

  /** If each old edge is still a path, nothing reachable is lost. */
  lemma {:induction false} EdgesKeptReachKept(m: int, succ: map<Id, Id>, succ': map<Id, Id>, x: Id, k: nat)
    requires Closed(m, succ) && Closed(m, succ') && succ.Keys <= succ'.Keys && x in succ
    requires EdgesKept(m, succ, succ')
    ensures Reaches(m, succ', x, Iter(m, succ, x, k))
    decreases k
  {
    if k == 0 {
      assert Iter(m, succ', x, 0) == x;
    } else {
      var y := Next(succ, x);
      assert y in succ && Iter(m, succ, x, k) == Iter(m, succ, y, k - 1);
      EdgesKeptReachKept(m, succ, succ', y, k - 1);
      assert Path(m, succ', x, y);
      PathReaches(m, succ', x, y);
      ReachesTrans(m, succ', x, y, Iter(m, succ, y, k - 1));
    }
  }

  // ---------- every step keeps the invariant and loses no reachability ----------

  ghost predicate ReachKept(m: int, p: Ptrs, p': Ptrs)
    requires Closed(m, p.succ) && Closed(m, p'.succ)
  {
    && p.succ.Keys <= p'.succ.Keys
    && forall x, y :: x in p.succ && Reaches(m, p.succ, x, y) ==> Reaches(m, p'.succ, x, y)
  }

  lemma KeepsReach(m: int, p: Ptrs, p': Ptrs)
    requires Closed(m, p.succ) && Closed(m, p'.succ) && p.succ.Keys <= p'.succ.Keys
    requires EdgesKept(m, p.succ, p'.succ)
    ensures ReachKept(m, p, p')
  {
    forall x, y | x in p.succ && Reaches(m, p.succ, x, y) ensures Reaches(m, p'.succ, x, y) {
      var k: nat :| Iter(m, p.succ, x, k) == y;
      EdgesKeptReachKept(m, p.succ, p'.succ, x, k);
    }
  }

  lemma SpliceSkipsNoCore(m: int, core: set<Id>, succ: map<Id, Id>, v: Id, q: Id)
    requires Closed(m, succ) && CoreNotSkipped(core, succ) && v in succ && q in succ && Between(v, Next(succ, v), q)
    ensures CoreNotSkipped(core, succ[v := q])
  {
    forall w, b | w in succ && b in core ensures !Between(w, succ[v := q][w], b) {
      assert !Between(w, Next(succ, w), b);
    }
  }

  lemma SpliceKeepsPredecessors(m: int, p: Ptrs, v: Id, q: Id)
    requires Closed(m, p.succ) && PredecessorsLead(m, p) && v in p.succ && q in p.succ
    requires Between(v, Next(p.succ, v), q) && Path(m, p.succ, q, Next(p.succ, v))
    requires Closed(m, p.succ[v := q])
    ensures PredecessorsLead(m, p.(succ := p.succ[v := q]))
  {
    forall x | x in p.pred ensures Path(m, p.succ[v := q], p.pred[x], x) {
      assert Path(m, p.succ, p.pred[x], x);
      SpliceKeepsPath(m, p.succ, v, q, p.pred[x], x);
    }
  }

  lemma SpliceKeepsEdges(m: int, succ: map<Id, Id>, v: Id, q: Id)
    requires Closed(m, succ) && v in succ && q in succ
    requires Between(v, Next(succ, v), q) && Path(m, succ, q, Next(succ, v))
    requires Closed(m, succ[v := q])
    ensures EdgesKept(m, succ, succ[v := q])
  {
    forall w | w in succ ensures Path(m, succ[v := q], w, Next(succ, w)) {
      assert Path(m, succ, w, Next(succ, w));
      SpliceKeepsPath(m, succ, v, q, w, Next(succ, w));
    }
  }

  lemma CheckKeeps(m: int, core: set<Id>, p: Ptrs, v: Id)
    requires Inv(m, core, p) && v in p.succ
    ensures Inv(m, core, CheckStep(p, v)) && ReachKept(m, p, CheckStep(p, v))
  {
    var s := Next(p.succ, v);
    if s in p.pred && Between(v, s, p.pred[s]) {
      assert Path(m, p.succ, p.pred[s], s);
      UpdateKeepsClosed(m, p.succ, v, p.pred[s]);
      SpliceSkipsNoCore(m, core, p.succ, v, p.pred[s]);
      SpliceKeepsPredecessors(m, p, v, p.pred[s]);
      SpliceKeepsEdges(m, p.succ, v, p.pred[s]);
      KeepsReach(m, p, CheckStep(p, v));
    }
  }

  lemma NotifyKeeps(m: int, core: set<Id>, p: Ptrs, v: Id)
    requires Inv(m, core, p) && v in p.succ
    ensures Inv(m, core, NotifyStep(p, v)) && ReachKept(m, p, NotifyStep(p, v))
  {
  }

  lemma JoinSkipsNoCore(core: set<Id>, p: Ptrs, j: Id, u: Id)
    requires CoreNotSkipped(core, p.succ) && JoinAllowed(p, j, u)
    ensures CoreNotSkipped(core, p.succ[j := Next(p.succ, u)])
  {
    var succ' := p.succ[j := Next(p.succ, u)];
    forall w, b | w in succ' && b in core ensures !Between(w, Next(succ', w), b) {
      var w' := if w == j then u else w;
      assert !Between(w', Next(p.succ, w'), b);
    }
  }

  lemma JoinKeepsPredecessors(m: int, p: Ptrs, j: Id, s: Id)
    requires Closed(m, p.succ) && PredecessorsLead(m, p) && j !in p.succ && s in p.succ && OnCircle(m, j)
    requires Closed(m, p.succ[j := s])
    ensures PredecessorsLead(m, p.(succ := p.succ[j := s]))
  {
    forall x | x in p.pred ensures Path(m, p.succ[j := s], p.pred[x], x) {
      assert Path(m, p.succ, p.pred[x], x);
      JoinKeepsPath(m, p.succ, j, s, p.pred[x], x);
    }
  }

  lemma JoinKeepsEdges(m: int, succ: map<Id, Id>, j: Id, s: Id)
    requires Closed(m, succ) && j !in succ && s in succ && OnCircle(m, j)
    requires Closed(m, succ[j := s])
    ensures EdgesKept(m, succ, succ[j := s])
  {
    forall w | w in succ ensures Path(m, succ[j := s], w, Next(succ, w)) {
      assert Path(m, succ, w, Next(succ, w));
      JoinKeepsPath(m, succ, j, s, w, Next(succ, w));
    }
  }

  lemma JoinKeeps(m: int, core: set<Id>, p: Ptrs, j: Id, u: Id)
    requires Inv(m, core, p) && JoinAllowed(p, j, u) && OnCircle(m, j)
    ensures Inv(m, core, JoinStep(p, j, u)) && ReachKept(m, p, JoinStep(p, j, u))
  {
    UpdateKeepsClosed(m, p.succ, j, Next(p.succ, u));
    JoinSkipsNoCore(core, p, j, u);
    JoinKeepsPredecessors(m, p, j, Next(p.succ, u));
    JoinKeepsEdges(m, p.succ, j, Next(p.succ, u));
    KeepsReach(m, p, JoinStep(p, j, u));
  }

  /** In every state of a run every node reaches every core member. */
  lemma CoreReached(m: int, core: set<Id>, p: Ptrs, v: Id, b: Id)
    requires Inv(m, core, p) && v in p.succ && b in core
    ensures Reaches(m, p.succ, v, b)
  {
    CoreOnPath(m, core, p.succ, v, b);
    PathReaches(m, p.succ, v, b);
  }

  // ---------- quiescence ----------

  /** No stabilisation step of any node changes a pointer. */
  ghost predicate Quiescent(p: Ptrs) {
    forall v {:trigger CheckStep(p, v)} {:trigger NotifyStep(p, v)} ::
      v in p.succ ==> CheckStep(p, v) == p && NotifyStep(p, v) == p
  }

  /** x lies strictly inside no arc from a node to its successor. */
  ghost predicate NotSkipped(succ: map<Id, Id>, x: Id) {
    forall v {:trigger Next(succ, v)} :: v in succ ==> !Between(v, Next(succ, v), x)
  }

  /** Every successor is the next member clockwise. */
  ghost predicate NoneSkipped(succ: map<Id, Id>) {
    forall x {:trigger NotSkipped(succ, x)} :: x in succ ==> NotSkipped(succ, x)
  }

  /** Every node has a predecessor, and it is the node whose successor it is. */
  ghost predicate Mirrored(p: Ptrs) {
    && p.pred.Keys == p.succ.Keys
    && (forall v {:trigger Next(p.succ, v)} :: v in p.succ ==> Next(p.succ, v) in p.pred && p.pred[Next(p.succ, v)] == v)
  }

  /** One ordered cycle winding once through all members, with predecessors to match. */
  ghost predicate Ideal(p: Ptrs) {
    NoneSkipped(p.succ) && Mirrored(p)
  }

  lemma QuiescentMirrors(m: int, core: set<Id>, p: Ptrs, v: Id)
    requires Inv(m, core, p) && Quiescent(p) && v in p.succ
    ensures Next(p.succ, v) in p.pred && p.pred[Next(p.succ, v)] == v
  {
    var s := Next(p.succ, v);
    assert CheckStep(p, v) == p && NotifyStep(p, v) == p;
    assert s in p.pred by {
      assert s in p.pred[s := v];
    }
    var q := p.pred[s];
    assert Next(p.succ[v := q], v) == q && p.pred[s := v][s] == v;
    assert !Between(v, s, q) && !Between(q, s, v);
  }

  /** A path that ends at y enters it from the node whose successor y is. */
  lemma {:induction false} LastEdge(m: int, succ: map<Id, Id>, a: Id, y: Id) returns (z: Id)
    requires Closed(m, succ) && a in succ && y in succ && a != y && Path(m, succ, a, y)
    ensures z in succ && Next(succ, z) == y && (z == a || Between(a, y, z))
    decreases Dist(m, a, y)
  {
    if Next(succ, a) == y {
      z := a;
    } else {
      z := LastEdge(m, succ, Next(succ, a), y);
    }
  }

  lemma {:induction false} NotSkippedIsOnPath(m: int, succ: map<Id, Id>, a: Id, y: Id)
    requires Closed(m, succ) && a in succ && y in succ && NotSkipped(succ, y)
    ensures Path(m, succ, a, y)
    decreases Dist(m, a, y)
  {
    if a != y {
      assert !Between(a, Next(succ, a), y);
      NotSkippedIsOnPath(m, succ, Next(succ, a), y);
    }
  }

  /** With mirrored pointers, the node before one that no arc skips is not skipped either. */
  lemma PreviousNotSkipped(m: int, core: set<Id>, p: Ptrs, x: Id)
    requires Inv(m, core, p) && Quiescent(p) && x in p.succ && NotSkipped(p.succ, Next(p.succ, x))
    ensures NotSkipped(p.succ, x)
  {
    var y := Next(p.succ, x);
    forall v | v in p.succ ensures !Between(v, Next(p.succ, v), x) {
      if Between(v, Next(p.succ, v), x) {
        var w := Next(p.succ, v);
        QuiescentMirrors(m, core, p, v);
        QuiescentMirrors(m, core, p, x);
        assert !Between(v, w, y);
        NotSkippedIsOnPath(m, p.succ, w, y);
        if w != y {
          var z := LastEdge(m, p.succ, w, y);
          QuiescentMirrors(m, core, p, z);
          assert false;
        }
      }
    }
  }

  lemma {:induction false} NothingSkipped(m: int, core: set<Id>, p: Ptrs, v: Id, b: Id)
    requires Inv(m, core, p) && Quiescent(p) && v in p.succ && b in core
    ensures NotSkipped(p.succ, v)
    decreases Dist(m, v, b)
  {
    if v == b {
      forall w | w in p.succ ensures !Between(w, Next(p.succ, w), b) {
      }
    } else {
      assert !Between(v, Next(p.succ, v), b);
      NothingSkipped(m, core, p, Next(p.succ, v), b);
      PreviousNotSkipped(m, core, p, v);
    }
  }

  /** Some node has x for its successor, whenever no arc skips x. */
  lemma HasPrevious(m: int, succ: map<Id, Id>, x: Id) returns (z: Id)
    requires Closed(m, succ) && x in succ && NotSkipped(succ, x)
    ensures z in succ && Next(succ, z) == x
  {
    var a := Next(succ, x);
    NotSkippedIsOnPath(m, succ, a, x);
    z := LastEdge(m, succ, a, x);
  }

  lemma QuiescentIsMirrored(m: int, core: set<Id>, p: Ptrs)
    requires Inv(m, core, p) && Quiescent(p) && NoneSkipped(p.succ)
    ensures Mirrored(p)
  {
    forall v | v in p.succ ensures Next(p.succ, v) in p.pred && p.pred[Next(p.succ, v)] == v {
      QuiescentMirrors(m, core, p, v);
    }
    forall x | x in p.succ ensures x in p.pred {
      assert NotSkipped(p.succ, x);
      var z := HasPrevious(m, p.succ, x);
      QuiescentMirrors(m, core, p, z);
    }
    forall x | x in p.pred ensures x in p.succ {
      assert p.pred[x] != x;
    }
  }

  lemma QuiescentIsIdeal(m: int, core: set<Id>, p: Ptrs, b: Id)
    requires Inv(m, core, p) && b in core && Quiescent(p)
    ensures Ideal(p)
  {
    forall x | x in p.succ ensures NotSkipped(p.succ, x) {
      NothingSkipped(m, core, p, x, b);
    }
    QuiescentIsMirrored(m, core, p);
  }

  lemma IdealIsQuiescent(m: int, p: Ptrs, v: Id)
    requires Closed(m, p.succ) && Ideal(p) && v in p.succ
    ensures CheckStep(p, v) == p && NotifyStep(p, v) == p
  {
  }

  /** The run comes to rest at the ideal ring and nowhere else. */
  lemma QuiescentIffIdeal(m: int, core: set<Id>, p: Ptrs)
    requires Inv(m, core, p) && core != {}
    ensures Quiescent(p) <==> Ideal(p)
  {
    if Quiescent(p) {
      SomeMember(core);
      var b :| b in core;
      QuiescentIsIdeal(m, core, p, b);
    }
    if Ideal(p) {
      forall v | v in p.succ ensures CheckStep(p, v) == p && NotifyStep(p, v) == p {
        IdealIsQuiescent(m, p, v);
      }
    }
  }

  lemma IdealNext(m: int, ring: seq<Id>, succ: map<Id, Id>, i: nat, j: nat)
    requires SortedRing(m, ring) && i < |ring| && j < |ring| && ring[i] in succ && Next(succ, ring[i]) == ring[j] && i != j
    requires NotSkipped(succ, At(ring, i + 1))
    ensures Next(succ, ring[i]) == At(ring, i + 1)
  {
  }

  /** The sequence lists exactly the members. */
  ghost predicate Lists(ring: seq<Id>, succ: map<Id, Id>) {
    && (forall i {:trigger ring[i]} :: 0 <= i < |ring| ==> ring[i] in succ)
    && (forall x {:trigger x in ring} :: x in succ ==> x in ring)
  }

  lemma ListedAt(ring: seq<Id>, succ: map<Id, Id>, x: Id) returns (j: nat)
    requires Lists(ring, succ) && x in succ
    ensures j < |ring| && ring[j] == x
  {
    assert x in ring;
    j :| 0 <= j < |ring| && ring[j] == x;
  }

  /** The ideal ring, listed in order, is one cycle through all members. */
  lemma IdealIsSortedCycle(m: int, ring: seq<Id>, p: Ptrs, i: nat)
    requires Closed(m, p.succ) && Ideal(p) && SortedRing(m, ring) && Lists(ring, p.succ)
    requires i < |ring|
    ensures ring[i] in p.succ && Next(p.succ, ring[i]) == At(ring, i + 1)
    ensures At(ring, i + 1) in p.pred && p.pred[At(ring, i + 1)] == ring[i]
  {
    var v, n := ring[i], At(ring, i + 1);
    var s := Next(p.succ, v);
    var j := ListedAt(ring, p.succ, s);
    assert n in p.succ && NotSkipped(p.succ, n);
    IdealNext(m, ring, p.succ, i, j);
  }

  // ---------- only finitely many changes ----------

  lemma SomeMember(s: set<Id>)
    ensures s == {} || exists x :: x in s
  {
    if !exists x :: x in s {
      assert s == {};
    }
  }

  ghost function Sum(f: map<Id, int>): int {
    if f.Keys == {} then 0
    else
      SomeMember(f.Keys);
      var k :| k in f;
      f[k] + Sum(f - {k})
  }

  lemma {:induction false} SumSplits(f: map<Id, int>, k: Id)
    requires k in f
    ensures Sum(f) == f[k] + Sum(f - {k})
    decreases |f|
  {
    SomeMember(f.Keys);
    var k' :| k' in f && Sum(f) == f[k'] + Sum(f - {k'});
    if k' != k {
      var f', g := f - {k'}, f - {k};
      SumSplits(f', k);
      SumSplits(g, k');
      assert f' - {k} == g - {k'};
    }
  }

  lemma SumUpdates(f: map<Id, int>, g: map<Id, int>, k: Id)
    requires k in f && f.Keys == g.Keys && forall x :: x in f && x != k ==> f[x] == g[x]
    ensures Sum(g) - Sum(f) == g[k] - f[k]
  {
    SumSplits(f, k);
    SumSplits(g, k);
    var f', g' := f - {k}, g - {k};
    assert f'.Keys == g'.Keys;
    forall x | x in f' ensures f'[x] == g'[x] {
      assert x in f && x != k;
    }
    assert f' == g';
  }

  lemma {:induction false} SumNonNegative(f: map<Id, int>)
    requires forall x :: x in f ==> f[x] >= 0
    ensures Sum(f) >= 0
    decreases |f|
  {
    if f.Keys != {} {
      SomeMember(f.Keys);
      var k :| k in f && Sum(f) == f[k] + Sum(f - {k});
      SumNonNegative(f - {k});
    }
  }

  ghost function SuccGaps(m: int, p: Ptrs): map<Id, int>
  {
    map v | v in p.succ :: Dist(m, v, Next(p.succ, v))
  }

  ghost function PredGaps(m: int, p: Ptrs): map<Id, int>
  {
    map v | v in p.succ :: if v in p.pred then Dist(m, p.pred[v], v) else m
  }

  /** Summed distances to successors and from predecessors, a missing predecessor counting m. */
  ghost function Measure(m: int, p: Ptrs): int {
    Sum(SuccGaps(m, p)) + Sum(PredGaps(m, p))
  }

  lemma MeasureNonNegative(m: int, core: set<Id>, p: Ptrs)
    requires Inv(m, core, p)
    ensures Measure(m, p) >= 0
  {
    SumNonNegative(SuccGaps(m, p));
    SumNonNegative(PredGaps(m, p));
  }

  lemma CheckNarrowsGap(m: int, p: Ptrs, v: Id, q: Id)
    requires v in p.succ && OnCircle(m, v) && OnCircle(m, q) && OnCircle(m, Next(p.succ, v))
    requires Between(v, Next(p.succ, v), q)
    ensures Sum(SuccGaps(m, p.(succ := p.succ[v := q]))) < Sum(SuccGaps(m, p))
  {
    SumUpdates(SuccGaps(m, p), SuccGaps(m, p.(succ := p.succ[v := q])), v);
  }

  lemma CheckLowersMeasure(m: int, core: set<Id>, p: Ptrs, v: Id)
    requires Inv(m, core, p) && v in p.succ
    ensures CheckStep(p, v) != p ==> Measure(m, CheckStep(p, v)) < Measure(m, p)
  {
    var s := Next(p.succ, v);
    if s in p.pred && Between(v, s, p.pred[s]) {
      CheckNarrowsGap(m, p, v, p.pred[s]);
      assert PredGaps(m, p) == PredGaps(m, CheckStep(p, v));
    }
  }

  lemma NotifyNarrowsGap(m: int, p: Ptrs, v: Id, s: Id)
    requires v in p.succ && s in p.succ && OnCircle(m, v) && OnCircle(m, s) && v != s
    requires s in p.pred ==> OnCircle(m, p.pred[s]) && Between(p.pred[s], s, v)
    ensures Sum(PredGaps(m, p.(pred := p.pred[s := v]))) < Sum(PredGaps(m, p))
  {
    SumUpdates(PredGaps(m, p), PredGaps(m, p.(pred := p.pred[s := v])), s);
  }

  lemma NotifyLowersMeasure(m: int, core: set<Id>, p: Ptrs, v: Id)
    requires Inv(m, core, p) && v in p.succ
    ensures NotifyStep(p, v) != p ==> Measure(m, NotifyStep(p, v)) < Measure(m, p)
  {
    var s := Next(p.succ, v);
    if s !in p.pred || Between(p.pred[s], s, v) {
      assert s in p.succ && s != v && (s in p.pred ==> p.pred[s] in p.succ);
      NotifyNarrowsGap(m, p, v, s);
      assert SuccGaps(m, p) == SuccGaps(m, NotifyStep(p, v));
    }
  }

  ghost predicate ChangesAt(run: seq<Ptrs>, i: nat)
    requires i + 1 < |run|
  {
    StabiliseStep(run[i], run[i + 1]) && run[i] != run[i + 1]
  }

  /** A run of stabilisation steps, each of which changes something. */
  ghost predicate ChangingRun(run: seq<Ptrs>) {
    forall i: nat {:trigger ChangesAt(run, i)} :: i + 1 < |run| ==> ChangesAt(run, i)
  }

  lemma StabiliseKeeps(m: int, core: set<Id>, p: Ptrs, p': Ptrs)
    requires Inv(m, core, p) && StabiliseStep(p, p')
    ensures Inv(m, core, p') && ReachKept(m, p, p')
  {
    var v :| v in p.succ && (p' == CheckStep(p, v) || p' == NotifyStep(p, v));
    if p' == CheckStep(p, v) {
      CheckKeeps(m, core, p, v);
    } else {
      NotifyKeeps(m, core, p, v);
    }
  }

  lemma StabiliseKeepsMembers(p: Ptrs, p': Ptrs)
    requires StabiliseStep(p, p')
    ensures p'.succ.Keys == p.succ.Keys
  {
  }

  /** A stabilisation step that changes a pointer lowers the measure. */
  lemma StabiliseLowers(m: int, core: set<Id>, p: Ptrs, p': Ptrs)
    requires Inv(m, core, p) && StabiliseStep(p, p') && p' != p
    ensures Measure(m, p') < Measure(m, p)
  {
    var v :| v in p.succ && (p' == CheckStep(p, v) || p' == NotifyStep(p, v));
    if p' == CheckStep(p, v) {
      CheckLowersMeasure(m, core, p, v);
    } else {
      NotifyLowersMeasure(m, core, p, v);
    }
  }

  /** Between joins, at most Measure-many stabilisation steps can change a pointer. */
  lemma {:induction false} ChangesAreBounded(m: int, core: set<Id>, run: seq<Ptrs>)
    requires |run| > 0 && Inv(m, core, run[0]) && ChangingRun(run)
    ensures |run| - 1 <= Measure(m, run[0])
    decreases |run|
  {
    hide Closed;
    if |run| == 1 {
      MeasureNonNegative(m, core, run[0]);
    } else {
      assert ChangesAt(run, 0);
      StabiliseKeeps(m, core, run[0], run[1]);
      StabiliseLowers(m, core, run[0], run[1]);
      forall i: nat | i + 1 < |run[1..]| ensures ChangesAt(run[1..], i) {
        assert ChangesAt(run, i + 1);
      }
      ChangesAreBounded(m, core, run[1..]);
    }
  }

  /** A state that is not at rest has a step that makes progress. */
  lemma SomeProgress(m: int, core: set<Id>, p: Ptrs) returns (p': Ptrs)
    requires Inv(m, core, p) && !Quiescent(p)
    ensures Inv(m, core, p') && StabiliseStep(p, p') && p' != p && p'.succ.Keys == p.succ.Keys
    ensures 0 <= Measure(m, p') < Measure(m, p)
  {
    p' := SomeChange(p);
    StabiliseKeeps(m, core, p, p');
    StabiliseKeepsMembers(p, p');
    StabiliseLowers(m, core, p, p');
    MeasureNonNegative(m, core, p');
  }

  lemma {:induction false} RunKeepsInv(m: int, core: set<Id>, run: seq<Ptrs>, i: nat)
    requires i < |run| && Inv(m, core, run[0]) && ChangingRun(run)
    ensures Inv(m, core, run[i])
  {
    if i > 0 {
      RunKeepsInv(m, core, run, i - 1);
      assert ChangesAt(run, i - 1);
      StabiliseKeeps(m, core, run[i - 1], run[i]);
    }
  }

  lemma {:induction false} CanRest(m: int, core: set<Id>, p: Ptrs, d: nat) returns (run: seq<Ptrs>)
    requires Inv(m, core, p) && Measure(m, p) <= d
    ensures |run| > 0 && run[0] == p && ChangingRun(run)
    ensures var last := run[|run| - 1];
            Quiescent(last) && last.succ.Keys == p.succ.Keys
    decreases d
  {
    hide Closed;
    if Quiescent(p) {
      run := [p];
    } else {
      var p' := SomeProgress(m, core, p);
      var rest := CanRest(m, core, p', d - 1);
      RunGrows(p, rest);
      run := [p] + rest;
      assert run[|run| - 1] == rest[|rest| - 1];
    }
  }

  /** From every reachable state stabilisation steps lead to the ideal ring. */
  lemma CanStabilise(m: int, core: set<Id>, p: Ptrs) returns (run: seq<Ptrs>)
    requires Inv(m, core, p) && core != {}
    ensures |run| > 0 && run[0] == p && ChangingRun(run)
    ensures Ideal(run[|run| - 1]) && run[|run| - 1].succ.Keys == p.succ.Keys
  {
    hide Closed;
    MeasureNonNegative(m, core, p);
    run := CanRest(m, core, p, Measure(m, p));
    RunKeepsInv(m, core, run, |run| - 1);
    QuiescentIffIdeal(m, core, run[|run| - 1]);
  }

  lemma SomeChange(p: Ptrs) returns (p': Ptrs)
    requires !Quiescent(p)
    ensures StabiliseStep(p, p') && p' != p
  {
    var v :| v in p.succ && !(CheckStep(p, v) == p && NotifyStep(p, v) == p);
    p' := if CheckStep(p, v) != p then CheckStep(p, v) else NotifyStep(p, v);
  }

  lemma RunGrows(p: Ptrs, rest: seq<Ptrs>)
    requires |rest| > 0 && ChangingRun(rest) && StabiliseStep(p, rest[0]) && p != rest[0]
    ensures ChangingRun([p] + rest)
  {
    var run := [p] + rest;
    forall i: nat | i + 1 < |run| ensures ChangesAt(run, i) {
      if i > 0 {
        assert ChangesAt(rest, i - 1);
      }
    }
  }
}
