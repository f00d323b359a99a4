/**
 * iter_closest.go: the iterator over the known nodes that precede a key, a
 * de-duplicating merge of the successor list and the finger table read from their
 * far ends.
 */
module ClosestPreceding {
  import opened Wrappers
  import opened RingMath

  type Id = int

  /** What the iterator reads of its node: the node's id and its two tables. */
  datatype Tables = Tables(self: Id, successors: seq<Option<Id>>, finger: seq<Option<Id>>)

  /** The iterator's own state. */
  datatype Cursor = Cursor(succIdx: int, fingerIdx: int, yielded: set<Id>)

  ghost predicate TablesOnCircle(m: int, t: Tables) {
    && OnCircle(m, t.self)
    && (forall i :: 0 <= i < |t.successors| && t.successors[i].Some? ==> OnCircle(m, t.successors[i].value))
    && (forall i :: 0 <= i < |t.finger| && t.finger[i].Some? ==> OnCircle(m, t.finger[i].value))
  }

  predicate InRange(t: Tables, c: Cursor) {
    -1 <= c.succIdx < |t.successors| && -1 <= c.fingerIdx < |t.finger|
  }

  /** A slot the scan stops at: filled, not yielded before, strictly between the node and the key. */
  predicate Eligible(self: Id, key: Id, yielded: set<Id>, x: Option<Id>) {
    x.Some? && x.value !in yielded && Between(self, key, x.value)
  }

  /** The highest eligible slot at or below i, or -1. */
  function Scan(list: seq<Option<Id>>, self: Id, key: Id, yielded: set<Id>, i: int): (r: int)
    requires -1 <= i < |list|
    ensures -1 <= r <= i
    ensures r >= 0 ==> Eligible(self, key, yielded, list[r])
    ensures forall j :: r < j <= i ==> !Eligible(self, key, yielded, list[j])
    decreases i + 1
  {
    if i < 0 || Eligible(self, key, yielded, list[i]) then i else Scan(list, self, key, yielded, i - 1)
  }

  /** `closest_preceeding_vnode`: true when a is chosen over b. */
  predicate FirstIsCloser(m: int, a: Id, b: Id, key: Id) {
    Dist(m, a, key) <= Dist(m, b, key)
  }

  function Start(t: Tables): Cursor {
    Cursor(|t.successors| - 1, |t.finger| - 1, {})
  }

  /** One call of `Next`: the node returned and the state it leaves. */
  function Step(m: int, t: Tables, key: Id, c: Cursor): (r: (Option<Id>, Cursor))
    requires InRange(t, c)
    ensures InRange(t, r.1)
    ensures r.0.Some? ==> Between(t.self, key, r.0.value) && r.0.value !in c.yielded
    ensures r.0.Some? ==> r.1.succIdx + r.1.fingerIdx < c.succIdx + c.fingerIdx
    ensures r.0.Some? ==> r.1.yielded == c.yielded + {r.0.value}
  {
    var si := Scan(t.successors, t.self, key, c.yielded, c.succIdx);
    var fi := Scan(t.finger, t.self, key, c.yielded, c.fingerIdx);
    if si >= 0 && (fi < 0 || FirstIsCloser(m, t.successors[si].value, t.finger[fi].value, key)) then
      (t.successors[si], Cursor(si - 1, fi, c.yielded + {t.successors[si].value}))
    else if fi >= 0 then
      (t.finger[fi], Cursor(si, fi - 1, c.yielded + {t.finger[fi].value}))
    else
      (None, Cursor(si, fi, c.yielded))
  }

  /** Everything the iterator returns from state c until its first nil. */
  function Yields(m: int, t: Tables, key: Id, c: Cursor): (ys: seq<Id>)
    requires InRange(t, c)
    decreases c.succIdx + c.fingerIdx + 2
  {
    var (r, c') := Step(m, t, key, c);
    if r.None? then [] else [r.value] + Yields(m, t, key, c')
  }

  /** The nodes known to lie strictly between the node and the key. */
  ghost predicate Candidate(t: Tables, key: Id, x: Id) {
    Between(t.self, key, x) && (Some(x) in t.successors || Some(x) in t.finger)
  }

  /** Slots above the two indices hold nothing that is still to come. */
  ghost predicate ScannedAbove(t: Tables, key: Id, c: Cursor) {
    && InRange(t, c)
    && (forall j :: c.succIdx < j < |t.successors| ==> !Eligible(t.self, key, c.yielded, t.successors[j]))
    && (forall j :: c.fingerIdx < j < |t.finger| ==> !Eligible(t.self, key, c.yielded, t.finger[j]))
  }

  lemma StepKeepsScanned(m: int, t: Tables, key: Id, c: Cursor)
    requires ScannedAbove(t, key, c)
    ensures ScannedAbove(t, key, Step(m, t, key, c).1)
    ensures Step(m, t, key, c).0.None? ==> forall x :: Candidate(t, key, x) ==> x in c.yielded
    ensures Step(m, t, key, c).0.Some? ==> Candidate(t, key, Step(m, t, key, c).0.value)
  {
  }

  /** After a nil the iterator returns nil forever. */
  lemma NilForever(m: int, t: Tables, key: Id, c: Cursor)
    requires InRange(t, c) && Step(m, t, key, c).0.None?
    ensures Step(m, t, key, Step(m, t, key, c).1) == Step(m, t, key, c)
  {
  }

  /** The merge is exact: each candidate not yet yielded is yielded, once, and nothing else is. */
  lemma {:induction false} YieldsExactly(m: int, t: Tables, key: Id, c: Cursor)
    requires ScannedAbove(t, key, c)
    ensures forall x :: x in Yields(m, t, key, c) <==> Candidate(t, key, x) && x !in c.yielded
    ensures forall i, j :: 0 <= i < j < |Yields(m, t, key, c)| ==> Yields(m, t, key, c)[i] != Yields(m, t, key, c)[j]
    decreases c.succIdx + c.fingerIdx + 2
  {
    StepKeepsScanned(m, t, key, c);
    var (r, c') := Step(m, t, key, c);
    if r.Some? {
      YieldsExactly(m, t, key, c');
      var rest := Yields(m, t, key, c');
      assert r.value !in rest;
      forall i, j | 0 <= i < j < |Yields(m, t, key, c)|
        ensures Yields(m, t, key, c)[i] != Yields(m, t, key, c)[j]
      {
        assert Yields(m, t, key, c)[j] == rest[j - 1];
        if i > 0 {
          assert Yields(m, t, key, c)[i] == rest[i - 1];
        }
      }
    }
  }

  /** Slots further up a table are at least as far round the circle (a node's own id, never yielded, aside). */
  ghost predicate InRingOrder(m: int, self: Id, list: seq<Option<Id>>) {
    forall i, j | 0 <= i < j < |list| && list[i].Some? && list[j].Some? ::
      list[i].value != self && list[j].value != self ==>
        Dist(m, self, list[i].value) <= Dist(m, self, list[j].value)
  }

  /** On tables in ring order, each call returns the candidate closest to the key among those left. */
  lemma StepIsClosest(m: int, t: Tables, key: Id, c: Cursor, x: Id)
    requires TablesOnCircle(m, t) && OnCircle(m, key) && ScannedAbove(t, key, c)
    requires InRingOrder(m, t.self, t.successors) && InRingOrder(m, t.self, t.finger)
    requires Candidate(t, key, x) && x !in c.yielded
    ensures Step(m, t, key, c).0.Some?
    ensures Dist(m, Step(m, t, key, c).0.value, key) <= Dist(m, x, key)
  {
  }

  lemma FirstIsStrictlyCloser(m: int, t: Tables, key: Id, c: Cursor, x: Id)
    requires TablesOnCircle(m, t) && OnCircle(m, key) && ScannedAbove(t, key, c)
    requires InRingOrder(m, t.self, t.successors) && InRingOrder(m, t.self, t.finger)
    requires Candidate(t, key, x) && x !in c.yielded
    ensures var r := Step(m, t, key, c).0;
            r.Some? && (x != r.value ==> Dist(m, r.value, key) < Dist(m, x, key))
  {
  }

  /** On tables in ring order the nodes come in strictly increasing distance to the key. */
  lemma {:induction false} YieldsInOrder(m: int, t: Tables, key: Id, c: Cursor)
    requires TablesOnCircle(m, t) && OnCircle(m, key) && ScannedAbove(t, key, c)
    requires InRingOrder(m, t.self, t.successors) && InRingOrder(m, t.self, t.finger)
    ensures forall i, j :: 0 <= i < j < |Yields(m, t, key, c)| ==>
              Dist(m, Yields(m, t, key, c)[i], key) < Dist(m, Yields(m, t, key, c)[j], key)
    decreases c.succIdx + c.fingerIdx + 2
  {
    var (r, c') := Step(m, t, key, c);
    if r.Some? {
      StepKeepsScanned(m, t, key, c);
      YieldsInOrder(m, t, key, c');
      YieldsExactly(m, t, key, c');
      var ys, rest := Yields(m, t, key, c), Yields(m, t, key, c');
      forall i, j | 0 <= i < j < |ys| ensures Dist(m, ys[i], key) < Dist(m, ys[j], key) {
        assert ys[j] == rest[j - 1] && ys[j] in rest;
        if i == 0 {
          assert ys[0] == r.value;
          FirstIsStrictlyCloser(m, t, key, c, ys[j]);
        } else {
          assert ys[i] == rest[i - 1];
        }
      }
    }
  }

  /** The slot where a scan from `from` down stops: the highest eligible one, or -1. */
  ghost predicate Head(list: seq<Option<Id>>, self: Id, key: Id, yielded: set<Id>, from: int, i: int) {
    && -1 <= i <= from < |list|
    && (i >= 0 ==> Eligible(self, key, yielded, list[i]))
    && forall j :: i < j <= from ==> !Eligible(self, key, yielded, list[j])
  }

  /** From the head of one table, at distance no larger than that of the other's, if it has one. */
  ghost predicate TakesFirst(m: int, key: Id, a: seq<Option<Id>>, i: int, b: seq<Option<Id>>, j: int, r: Option<Id>) {
    && 0 <= i < |a| && j < |b| && r.Some? && r == a[i]
    && (j >= 0 ==> b[j].Some? && Dist(m, r.value, key) <= Dist(m, b[j].value, key))
  }

  /** Whatever the tables hold, a call returns the closer of their heads, the successor's at equal distance, and keeps the other for later. */
  lemma StepTakesCloserHead(m: int, t: Tables, key: Id, c: Cursor, si: int, fi: int)
    requires Head(t.successors, t.self, key, c.yielded, c.succIdx, si)
    requires Head(t.finger, t.self, key, c.yielded, c.fingerIdx, fi)
    ensures var (r, c') := Step(m, t, key, c);
            || (si == -1 && fi == -1 && r == None && c' == Cursor(-1, -1, c.yielded))
            || (TakesFirst(m, key, t.successors, si, t.finger, fi, r) && c' == Cursor(si - 1, fi, c.yielded + {r.value}))
            || (TakesFirst(m, key, t.finger, fi, t.successors, si, r) && c' == Cursor(si, fi - 1, c.yielded + {r.value})
                && (si >= 0 ==> Dist(m, r.value, key) < Dist(m, t.successors[si].value, key)))
  {
  }

  lemma CandidateOnCircle(m: int, t: Tables, key: Id, x: Id)
    requires TablesOnCircle(m, t) && Candidate(t, key, x)
    ensures OnCircle(m, x)
  {
  }

  /** closestPreceedingVnodeIterator over tables that do not change while it runs. */
  class Iterator {
    const m: int
    const tables: Tables
    const key: Id
    var successorIdx: int
    var fingerIdx: int
    var yielded: set<Id>

    ghost function State(): Cursor
      reads this
    {
      Cursor(successorIdx, fingerIdx, yielded)
    }

    /** `init`. */
    constructor (m: int, tables: Tables, key: Id)
      ensures this.m == m && this.tables == tables && this.key == key
      ensures State() == Start(tables)
    {
      this.m, this.tables, this.key := m, tables, key;
      successorIdx := |tables.successors| - 1;
      fingerIdx := |tables.finger| - 1;
      yielded := {};
    }

    /** `Next`. */
    method Next() returns (closest: Option<Id>)
      requires InRange(tables, State())
      modifies this
      ensures (closest, State()) == Step(m, tables, key, old(State()))
    {
      var successorNode: Option<Id> := None;
      var fingerNode: Option<Id> := None;
      var i := successorIdx;
      while i >= 0
        invariant -1 <= i <= successorIdx
        invariant Scan(tables.successors, tables.self, key, yielded, i)
               == Scan(tables.successors, tables.self, key, yielded, successorIdx)
      {
        if tables.successors[i].Some? && tables.successors[i].value !in yielded {
          if Between(tables.self, key, tables.successors[i].value) {
            successorNode := tables.successors[i];
            break;
          }
        }
        i := i - 1;
      }
      successorIdx := i;
      i := fingerIdx;
      while i >= 0
        invariant -1 <= i <= fingerIdx
        invariant Scan(tables.finger, tables.self, key, yielded, i)
               == Scan(tables.finger, tables.self, key, yielded, fingerIdx)
      {
        if tables.finger[i].Some? && tables.finger[i].value !in yielded {
          if Between(tables.self, key, tables.finger[i].value) {
            fingerNode := tables.finger[i];
            break;
          }
        }
        i := i - 1;
      }
      fingerIdx := i;
      if successorNode.Some? && fingerNode.Some? {
        if FirstIsCloser(m, successorNode.value, fingerNode.value, key) {
          closest := successorNode;
          successorIdx := successorIdx - 1;
        } else {
          closest := fingerNode;
          fingerIdx := fingerIdx - 1;
        }
        yielded := yielded + {closest.value};
      } else if successorNode.Some? {
        successorIdx := successorIdx - 1;
        yielded := yielded + {successorNode.value};
        closest := successorNode;
      } else if fingerNode.Some? {
        fingerIdx := fingerIdx - 1;
        yielded := yielded + {fingerNode.value};
        closest := fingerNode;
      } else {
        closest := None;
      }
    }
  }
}
