/**
 * One failover after another: the first node of a list is primary for a term while the
 * others are its backups, then it is gone and the next node replays its log and takes over.
 */
module Terms {
  import opened Wrappers
  import opened LockManager
  import opened LockRuns
  import opened Failover

  // ---------- one term over whatever the nodes have in their logs ----------

  /** The highest version acknowledged as committed, key by key. */
  function AckedBy(acked: map<string, nat>, p: Primary, e: Event): map<string, nat>
    requires p.lm.currentLM
  {
    if e.AskCommit? && CommitAt(p, e).1.Done? then acked[e.key := e.version] else acked
  }

  function AckedOver(acked: map<string, nat>, p: Primary, es: seq<Event>): map<string, nat>
    requires p.lm.currentLM
    decreases |es|
  {
    if es == [] then acked else AckedOver(AckedBy(acked, p, es[0]), Step(p, es[0]), es[1..])
  }

  /** A node whose log replays to what was acknowledged or more, with every lock above it. */
  ghost predicate Keeps(acked: map<string, nat>, b: State) {
    IsBackup(b) && SortedOpNums(b.opsLog) && Covers(acked, Replay(b.opsLog))
  }

  /** A primary that respects what was acknowledged. */
  ghost predicate Respects(acked: map<string, nat>, p: Primary) {
    p.lm.currentLM && InRange(p.lm) && OnFloor(p.lm, acked)
  }

  ghost predicate Sane(p: Primary, e: Event) {
    Representable(e) && (p.lm.currentLM ==> !(e.AskWLock? && WrapsRound(p.lm, e.key, e.version)))
  }

  lemma RespectedEntryIsSound(acked: map<string, nat>, p: Primary, e: Event)
    requires Respects(acked, p) && Sane(p, e)
    ensures EntryOf(p, e).Some? ==> Sound(acked, EntryOf(p, e).value)
  {
    if EntryOf(p, e).Some? {
      assert KeyOnFloor(p.lm, acked, e.key);
    }
  }

  lemma StepKeepsRespect(acked: map<string, nat>, p: Primary, e: Event)
    requires Respects(acked, p) && Sane(p, e)
    ensures Respects(AckedBy(acked, p, e), Step(p, e))
    ensures forall k :: Committed(acked, k) <= Committed(AckedBy(acked, p, e), k)
  {
    StepInRange(p, e);
    StepKeepsFloor(p, e, acked);
    StepDoes(p, e);
    var acked', q := AckedBy(acked, p, e), Step(p, e);
    hide Step, CommitAt, InRange;
    forall k ensures KeyOnFloor(q.lm, acked', k) && Committed(acked, k) <= Committed(acked', k) {
      assert KeyOnFloor(q.lm, acked, k);
    }
  }

  /** What the entry's arrival leaves of the backup's log. */
  lemma ArrivalKeeps(acked: map<string, nat>, b: State, x: LogEntry)
    requires Keeps(acked, b) && Sound(acked, x) && Deliver(b, x).Some?
    ensures Keeps(acked, Deliver(b, x).value) && Keeps(VersionMapAfter(acked, x), Deliver(b, x).value)
  {
    DeliverOne(b, x);
    ReplayAppend(b.opsLog, x);
    EntryKeepsCovers(acked, Replay(b.opsLog), x);
    hide Deliver, Covers, SortedOpNums, Replay, ReplayOne, VersionMapAfter;
  }

  lemma StepKeepsKept(acked: map<string, nat>, p: Primary, e: Event, i: nat, b: State)
    requires Respects(acked, p) && Sane(p, e) && Keeps(acked, b)
    requires InReplicaSet(e, i) && BackupStep(p, e, i, b).Some?
    ensures Keeps(AckedBy(acked, p, e), BackupStep(p, e, i, b).value)
  {
    StepDoes(p, e);
    RespectedEntryIsSound(acked, p, e);
    hide Keeps, Step, Deliver, Sound, Respects;
    if EntryOf(p, e).Some? && ReceivedBy(e.repl, i) {
      ArrivalKeeps(acked, b, EntryOf(p, e).value);
    }
  }

  ghost predicate AllSane(p: Primary, es: seq<Event>)
    requires p.lm.currentLM
    decreases |es|
  {
    es == [] || (Sane(p, es[0]) && AllSane(Step(p, es[0]), es[1..]))
  }

  /** Through a term, a backup in the replica set that takes the entries keeps everything acknowledged. */
  lemma {:induction false} TermKeeps(acked: map<string, nat>, p: Primary, es: seq<Event>, i: nat, b: State)
    requires Respects(acked, p) && AllSane(p, es) && AlwaysInReplicaSet(es, i) && Keeps(acked, b)
    requires IsBackup(b) && BackupRun(p, es, i, b).Some?
    ensures Keeps(AckedOver(acked, p, es), BackupRun(p, es, i, b).value)
    decreases |es|
  {
    assert p.lm.currentLM;
    hide Keeps, Respects, Step, BackupStep, AckedBy, Sane, InReplicaSet;
    if es != [] {
      assert InReplicaSet(es[0], i);
      StepKeepsRespect(acked, p, es[0]);
      StepKeepsKept(acked, p, es[0], i, b);
      TermKeeps(AckedBy(acked, p, es[0]), Step(p, es[0]), es[1..], i, BackupStep(p, es[0], i, b).value);
    }
  }

  /** Nothing acknowledged in a term is above what is kept at its end, and nothing kept is lost. */
  lemma {:induction false} TermAcks(acked: map<string, nat>, p: Primary, es: seq<Event>)
    requires Respects(acked, p) && AllSane(p, es)
    ensures forall k :: Committed(acked, k) <= Committed(AckedOver(acked, p, es), k)
    ensures forall j {:trigger Commits(p, es)[j]} :: 0 <= j < |Commits(p, es)| ==>
              Commits(p, es)[j].version <= Committed(AckedOver(acked, p, es), Commits(p, es)[j].key)
    decreases |es|
  {
    if es != [] {
      var acked' := AckedBy(acked, p, es[0]);
      StepKeepsRespect(acked, p, es[0]);
      hide Respects, Step, Sane, CommitAt;
      TermAcks(acked', Step(p, es[0]), es[1..]);
      assert es[0].AskCommit? && CommitAt(p, es[0]).1.Done? ==> Committed(acked', es[0].key) == es[0].version;
      hide Committed;
    }
  }

  // ---------- which entries of a new term a backup takes ----------

  lemma {:induction false} ReceivedNumbersGrow(p: Primary, es: seq<Event>, i: nat)
    requires p.lm.currentLM
    ensures forall j :: 0 <= j < |Received(p, es, i)| ==> Received(p, es, i)[j].opNum > p.lm.currOpNum
    ensures forall j, k :: 0 <= j < k < |Received(p, es, i)| ==> Received(p, es, i)[j].opNum < Received(p, es, i)[k].opNum
    decreases |es|
  {
    if es != [] {
      StepDoes(p, es[0]);
      hide Step, ReceivedBy;
      ReceivedNumbersGrow(Step(p, es[0]), es[1..], i);
      hide EntryOf;
    }
  }

  /**
   * A backup takes all entries of a term exactly when its log is empty, none reaches it, or
   * the first to reach it is not numbered below its first entry.
   */
  lemma TermTakenIff(p: Primary, es: seq<Event>, i: nat, b: State)
    requires p.lm.currentLM && IsBackup(b) && SortedOpNums(b.opsLog)
    ensures var xs := Received(p, es, i);
            BackupRun(p, es, i, b).Some? <==> b.opsLog == [] || xs == [] || b.opsLog[0].opNum <= xs[0].opNum
  {
    var xs := Received(p, es, i);
    BackupRunIsArrivals(p, es, i, b);
    DeliverAllIff(b, xs);
    ReceivedNumbersGrow(p, es, i);
    hide Received, DeliverAll, BackupRun, SortedOpNums;
    if xs != [] {
      assert (b.opsLog + xs)[0] == if b.opsLog == [] then xs[0] else b.opsLog[0];
    }
  }

  /** A primary that took over counts from 1 again: a log that starts with entry 1 takes its whole term. */
  lemma LogFromOneTakesTerm(s: State, clock: int, vn: string, host: string, es: seq<Event>, i: nat, b: State)
    requires IsBackup(b) && SortedOpNums(b.opsLog) && (b.opsLog != [] ==> b.opsLog[0].opNum <= 1)
    ensures BackupRun(TakeOver(s, clock, vn, host), es, i, b).Some?
  {
    var q := TakeOver(s, clock, vn, host);
    TermTakenIff(q, es, i, b);
    ReceivedNumbersGrow(q, es, i);
  }

  // ---------- any number of terms ----------

  datatype Term = Term(clock: int, vn: string, host: string, es: seq<Event>)

  ghost predicate AllBackups(nodes: seq<State>) {
    forall k {:trigger nodes[k]} :: 0 <= k < |nodes| ==> IsBackup(nodes[k])
  }

  ghost predicate AllKeep(acked: map<string, nat>, nodes: seq<State>) {
    forall k {:trigger nodes[k]} :: 0 <= k < |nodes| ==> Keeps(acked, nodes[k])
  }

  function Lead(nodes: seq<State>, t: Term): (q: Primary)
    requires nodes != []
    ensures q.lm.currentLM
  {
    TakeOver(nodes[0], t.clock, t.vn, t.host)
  }

  /** The backups after the term, the first of them being number i; None if one of them panics. */
  ghost function BackupsAfter(q: Primary, es: seq<Event>, i: nat, backups: seq<State>): (r: Option<seq<State>>)
    requires q.lm.currentLM && AllBackups(backups)
    ensures r.Some? ==> |r.value| == |backups| && AllBackups(r.value)
    ensures r.Some? ==> forall k {:trigger r.value[k]} :: 0 <= k < |backups| ==> BackupRun(q, es, i + k, backups[k]) == Some(r.value[k])
    decreases |backups|
  {
    if backups == [] then Some([])
    else
      var b, rest := BackupRun(q, es, i, backups[0]), BackupsAfter(q, es, i + 1, backups[1..]);
      if b.None? || rest.None? then None
      else
        assert forall k :: 1 <= k < |backups| ==> backups[k] == backups[1..][k - 1];
        Some([b.value] + rest.value)
  }

  /** The nodes left after the terms. */
  ghost function NodesAfter(nodes: seq<State>, terms: seq<Term>): (r: Option<seq<State>>)
    requires AllBackups(nodes)
    ensures r.Some? ==> AllBackups(r.value)
    decreases |terms|
  {
    if terms == [] then Some(nodes)
    else if nodes == [] then None
    else
      var next := BackupsAfter(Lead(nodes, terms[0]), terms[0].es, 0, nodes[1..]);
      if next.None? then None else NodesAfter(next.value, terms[1..])
  }

  /** Every term respects the range of versions and reaches for all the nodes that are left. */
  ghost predicate SaneTerms(nodes: seq<State>, terms: seq<Term>)
    requires AllBackups(nodes) && NodesAfter(nodes, terms).Some?
    decreases |terms|
  {
    terms == [] ||
    (var q := Lead(nodes, terms[0]);
     && AllSane(q, terms[0].es) && (forall i: nat :: i < |nodes| - 1 ==> AlwaysInReplicaSet(terms[0].es, i))
     && SaneTerms(BackupsAfter(q, terms[0].es, 0, nodes[1..]).value, terms[1..]))
  }

  /** The commits acknowledged to clients over all the terms. */
  ghost function AllCommits(nodes: seq<State>, terms: seq<Term>): seq<Version>
    requires AllBackups(nodes) && NodesAfter(nodes, terms).Some?
    decreases |terms|
  {
    if terms == [] then []
    else
      var q := Lead(nodes, terms[0]);
      Commits(q, terms[0].es) + AllCommits(BackupsAfter(q, terms[0].es, 0, nodes[1..]).value, terms[1..])
  }

  ghost function AckedOverTerms(acked: map<string, nat>, nodes: seq<State>, terms: seq<Term>): map<string, nat>
    requires AllBackups(nodes) && NodesAfter(nodes, terms).Some?
    decreases |terms|
  {
    if terms == [] then acked
    else
      var q := Lead(nodes, terms[0]);
      AckedOverTerms(AckedOver(acked, q, terms[0].es), BackupsAfter(q, terms[0].es, 0, nodes[1..]).value, terms[1..])
  }

  lemma LeadRespects(acked: map<string, nat>, nodes: seq<State>, t: Term)
    requires nodes != [] && AllKeep(acked, nodes)
    ensures Respects(acked, Lead(nodes, t))
  {
    assert Keeps(acked, nodes[0]);
    CoversIsFloor(acked, nodes[0], t.clock, t.vn, t.host);
  }

  lemma TermHandsOn(acked: map<string, nat>, nodes: seq<State>, t: Term)
    requires nodes != [] && AllBackups(nodes) && AllKeep(acked, nodes) && AllSane(Lead(nodes, t), t.es)
    requires forall i: nat :: i < |nodes| - 1 ==> AlwaysInReplicaSet(t.es, i)
    requires BackupsAfter(Lead(nodes, t), t.es, 0, nodes[1..]).Some?
    ensures AllKeep(AckedOver(acked, Lead(nodes, t), t.es), BackupsAfter(Lead(nodes, t), t.es, 0, nodes[1..]).value)
  {
    var q := Lead(nodes, t);
    var next := BackupsAfter(q, t.es, 0, nodes[1..]).value;
    LeadRespects(acked, nodes, t);
    hide Keeps, Respects, AllSane, Lead, AlwaysInReplicaSet;
    forall k | 0 <= k < |next| ensures Keeps(AckedOver(acked, q, t.es), next[k]) {
      assert nodes[1..][k] == nodes[k + 1] && Keeps(acked, nodes[k + 1]) && IsBackup(nodes[k + 1]);
      assert BackupRun(q, t.es, 0 + k, nodes[1..][k]) == Some(next[k]);
      TermKeeps(acked, q, t.es, k, nodes[k + 1]);
    }
  }

  /** However many primaries come and go, every node left replays to everything that any of them acknowledged. */
  lemma {:induction false} TermsKeepCommits(acked: map<string, nat>, nodes: seq<State>, terms: seq<Term>)
    requires AllBackups(nodes) && AllKeep(acked, nodes) && NodesAfter(nodes, terms).Some? && SaneTerms(nodes, terms)
    ensures AllKeep(AckedOverTerms(acked, nodes, terms), NodesAfter(nodes, terms).value)
    ensures forall k :: Committed(acked, k) <= Committed(AckedOverTerms(acked, nodes, terms), k)
    ensures forall j {:trigger AllCommits(nodes, terms)[j]} :: 0 <= j < |AllCommits(nodes, terms)| ==>
              AllCommits(nodes, terms)[j].version <= Committed(AckedOverTerms(acked, nodes, terms), AllCommits(nodes, terms)[j].key)
    decreases |terms|
  {
    if terms != [] {
      var t := terms[0];
      var q := Lead(nodes, t);
      LeadRespects(acked, nodes, t);
      TermAcks(acked, q, t.es);
      TermHandsOn(acked, nodes, t);
      hide Committed, Lead, AllSane, Respects, Keeps, AllKeep, AllBackups;
      TermsKeepCommits(AckedOver(acked, q, t.es), BackupsAfter(q, t.es, 0, nodes[1..]).value, terms[1..]);
    }
  }

  /** Fresh nodes: nothing acknowledged, nothing logged. */
  ghost predicate Fresh(nodes: seq<State>) {
    forall k {:trigger nodes[k]} :: 0 <= k < |nodes| ==> nodes[k] == State(false, map[], map[], map[], 0, [], 0, -1)
  }

  lemma FreshKeeps(nodes: seq<State>)
    requires Fresh(nodes)
    ensures AllBackups(nodes) && AllKeep(map[], nodes)
  {
  }

  /**
   * Durability over any number of failovers: however replications fail on the way, every
   * node left replays to at least every version that any primary acknowledged as committed.
   */
  lemma CommitsSurviveAllTerms(nodes: seq<State>, terms: seq<Term>, k: nat, j: nat)
    requires Fresh(nodes) && AllBackups(nodes) && NodesAfter(nodes, terms).Some? && SaneTerms(nodes, terms)
    requires k < |NodesAfter(nodes, terms).value| && j < |AllCommits(nodes, terms)|
    ensures var r, c := Replay(NodesAfter(nodes, terms).value[k].opsLog), AllCommits(nodes, terms)[j];
            c.version <= Committed(r.versionMap, c.key)
  {
    FreshKeeps(nodes);
    TermsKeepCommits(map[], nodes, terms);
    var acked, n, c := AckedOverTerms(map[], nodes, terms), NodesAfter(nodes, terms).value[k], AllCommits(nodes, terms)[j];
    assert Keeps(acked, n);
    assert KeyCovered(acked, Replay(n.opsLog), c.key);
  }

  /** And the next primary grants and commits only versions above all of them. */
  lemma NextTermNeverRegrants(nodes: seq<State>, terms: seq<Term>, t: Term)
    requires Fresh(nodes) && AllBackups(nodes) && NodesAfter(nodes, terms).Some? && SaneTerms(nodes, terms)
    requires NodesAfter(nodes, terms).value != [] && AllRepresentable(t.es)
    requires NoRequestWraps(Lead(NodesAfter(nodes, terms).value, t), t.es)
    ensures var q := Lead(NodesAfter(nodes, terms).value, t);
            && AllAbove(Grants(q, t.es), AllCommits(nodes, terms))
            && AllAbove(Commits(q, t.es), AllCommits(nodes, terms))
  {
    FreshKeeps(nodes);
    TermsKeepCommits(map[], nodes, terms);
    var acked, left := AckedOverTerms(map[], nodes, terms), NodesAfter(nodes, terms).value;
    var q := Lead(left, t);
    LeadRespects(acked, left, t);
    NoRequestNoGrantWraps(q, t.es);
    RunStaysAboveFloor(q, t.es, acked);
    AboveFloorAboveAll(Grants(q, t.es), AllCommits(nodes, terms), acked);
    AboveFloorAboveAll(Commits(q, t.es), AllCommits(nodes, terms), acked);
  }
}
