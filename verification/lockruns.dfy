/**
 * Whole runs of one primary lock manager: any interleaving of client requests, failed and
 * partial replications, the passing of time and the expiry ticker.
 */
module LockRuns {
  import opened Wrappers
  import opened LockManager

  datatype Event =
    | AskWLock(key: string, version: nat, timeout: nat, nodeId: string, lockId: string, repl: Replication)
    | AskCommit(key: string, version: nat, repl: Replication)
    | AskAbort(key: string, version: nat, repl: Replication)
    | AskRLock(key: string, nodeId: string, addr: string, lockId: string, repl: Replication)
    | Elapse(d: nat)
    | Ticker

  datatype Primary = Primary(lm: State, clock: int, vn: string, host: string)

  /** A version of a key. */
  datatype Version = Version(key: string, version: nat)

  function WLockAt(p: Primary, e: Event): (State, WLockReply)
    requires p.lm.currentLM && e.AskWLock?
  {
    WLock(p.lm, e.key, e.version, e.timeout, e.nodeId, None, p.clock, e.lockId, p.vn, p.host, e.repl)
  }

  function CommitAt(p: Primary, e: Event): (State, CommitReply, CopySet)
    requires p.lm.currentLM && e.AskCommit?
  {
    Commit(p.lm, e.key, e.version, None, p.vn, p.host, e.repl)
  }

  function Step(p: Primary, e: Event): (q: Primary)
    requires p.lm.currentLM
    ensures q.lm.currentLM
  {
    match e
    case AskWLock(_, _, _, _, _, _) => p.(lm := WLockAt(p, e).0)
    case AskCommit(_, _, _) => p.(lm := CommitAt(p, e).0)
    case AskAbort(key, version, repl) => p.(lm := Abort(p.lm, key, version, None, p.vn, p.host, repl).0)
    case AskRLock(key, nodeId, addr, lockId, repl) =>
      p.(lm := RLock(p.lm, key, nodeId, addr, None, lockId, p.vn, p.host, repl).0)
    case Elapse(d) => p.(clock := p.clock + d)
    case Ticker => p.(lm := Expire(p.lm, p.clock))
  }

  function Run(p: Primary, es: seq<Event>): (q: Primary)
    requires p.lm.currentLM
    ensures q.lm.currentLM
    decreases |es|
  {
    if es == [] then p else Run(Step(p, es[0]), es[1..])
  }

  /** The write locks granted to clients over a run, in order. */
  function Grants(p: Primary, es: seq<Event>): seq<Version>
    requires p.lm.currentLM
    decreases |es|
  {
    if es == [] then []
    else
      (if es[0].AskWLock? && WLockAt(p, es[0]).1.Granted? then [Version(es[0].key, WLockAt(p, es[0]).1.version)] else [])
      + Grants(Step(p, es[0]), es[1..])
  }

  /** The commits acknowledged to clients over a run, in order. */
  function Commits(p: Primary, es: seq<Event>): seq<Version>
    requires p.lm.currentLM
    decreases |es|
  {
    if es == [] then []
    else
      (if es[0].AskCommit? && CommitAt(p, es[0]).1.Done? then [Version(es[0].key, es[0].version)] else [])
      + Commits(Step(p, es[0]), es[1..])
  }

  // ---------- one step in terms of its log entry ----------

  /** The entry a request gets as far as logging and replicating, if any. */
  function EntryOf(p: Primary, e: Event): Option<LogEntry>
    requires p.lm.currentLM
  {
    var s := p.lm;
    match e
    case AskWLock(key, version, timeout, _, lockId, _) =>
      if key in s.wLocks || VersionToLock(s.versionMap, key, version).None? then None
      else Some(LogEntry(s.currOpNum + 1, WRITE, key, VersionToLock(s.versionMap, key, version).value,
                         p.clock + timeout * SECOND, lockId, s.commitPoint, p.vn, p.host))
    case AskCommit(key, version, _) =>
      if key !in s.wLocks || s.wLocks[key].version != version then None
      else Some(LogEntry(s.currOpNum + 1, COMMIT, key, version, 0, "", s.commitPoint, p.vn, p.host))
    case AskAbort(key, version, _) =>
      if key !in s.wLocks || s.wLocks[key].version != version then None
      else Some(LogEntry(s.currOpNum + 1, ABORT, key, version, 0, "", s.commitPoint, p.vn, p.host))
    case AskRLock(key, _, _, lockId, _) =>
      if Committed(s.versionMap, key) == 0 then None
      else Some(LogEntry(s.currOpNum + 1, READ, key, 0, 0, lockId, s.commitPoint, p.vn, p.host))
    case _ => None
  }

  /** The write locks once an operation on one took effect. */
  function WLocksAfter(wLocks: map<string, WLockEntry>, x: LogEntry, nodeId: string): map<string, WLockEntry> {
    match x.op
    case WRITE => wLocks[x.key := WLockEntry(nodeId, x.lockId, x.version, x.timeout)]
    case READ => wLocks
    case _ => wLocks - {x.key}
  }

  function VersionMapAfter(versionMap: map<string, nat>, x: LogEntry): map<string, nat> {
    if x.op == COMMIT then versionMap[x.key := x.version] else versionMap
  }

  /**
   * What one step does to versions, write locks, log and clock: an entry takes effect exactly
   * when it is fully replicated, and stays in the log if it does or if it is for a read.
   */
  ghost predicate StepIs(p: Primary, e: Event, q: Primary)
    requires p.lm.currentLM
  {
    && q == p.(lm := q.lm, clock := q.clock)
    && q.lm.currentLM && q.lm.commitPoint == p.lm.commitPoint && q.lm.commitIndex == p.lm.commitIndex
    && match EntryOf(p, e)
    case None =>
      && q.lm.versionMap == p.lm.versionMap && q.lm.opsLog == p.lm.opsLog && q.lm.currOpNum == p.lm.currOpNum
      && q.lm.wLocks == (if e.Ticker? then Expire(p.lm, p.clock).wLocks else p.lm.wLocks)
      && q.clock == p.clock + (if e.Elapse? then e.d else 0)
    case Some(x) =>
      && q.clock == p.clock && q.lm.currOpNum == x.opNum == p.lm.currOpNum + 1
      && q.lm.opsLog == p.lm.opsLog + (if x.op == READ || FullyReplicated(e.repl) then [x] else [])
      && q.lm.versionMap == (if FullyReplicated(e.repl) then VersionMapAfter(p.lm.versionMap, x) else p.lm.versionMap)
      && q.lm.wLocks ==
         if FullyReplicated(e.repl) then WLocksAfter(p.lm.wLocks, x, if e.AskWLock? then e.nodeId else "") else p.lm.wLocks
  }

  lemma StepDoes(p: Primary, e: Event)
    requires p.lm.currentLM
    ensures StepIs(p, e, Step(p, e))
    ensures e.AskWLock? ==> (WLockAt(p, e).1.Granted? <==> EntryOf(p, e).Some? && FullyReplicated(e.repl))
    ensures e.AskWLock? && WLockAt(p, e).1.Granted? ==> WLockAt(p, e).1.version == EntryOf(p, e).value.version
    ensures e.AskCommit? ==> (CommitAt(p, e).1.Done? <==> EntryOf(p, e).Some? && FullyReplicated(e.repl))
  {
  }

  // ---------- held versions exceed committed ones ----------

  /** Every held lock is for a version above the committed one. */
  ghost predicate HeldAbove(s: State) {
    forall k :: k in s.wLocks ==> s.wLocks[k].version > Committed(s.versionMap, k)
  }

  /** Versions fit Go's uint. */
  ghost predicate InRange(s: State) {
    && (forall k :: k in s.versionMap ==> s.versionMap[k] < UINT)
    && (forall k :: k in s.wLocks ==> s.wLocks[k].version < UINT)
  }

  predicate Representable(e: Event) {
    e.AskWLock? || e.AskCommit? || e.AskAbort? ==> e.version < UINT
  }

  ghost predicate AllRepresentable(es: seq<Event>) {
    forall i :: 0 <= i < |es| ==> Representable(es[i])
  }

  /** The one request whose next version wraps round to 0: nothing above the largest uint is left. */
  predicate WrapsRound(s: State, key: string, version: nat) {
    version == 0 && Committed(s.versionMap, key) == UINT - 1
  }

  predicate GrantWraps(p: Primary, e: Event) {
    && e.AskWLock? && WrapsRound(p.lm, e.key, e.version)
    && e.key !in p.lm.wLocks && FullyReplicated(e.repl)
  }

  predicate NoGrantWraps(p: Primary, es: seq<Event>)
    requires p.lm.currentLM
    decreases |es|
  {
    es == [] || (!GrantWraps(p, es[0]) && NoGrantWraps(Step(p, es[0]), es[1..]))
  }

  /** A granted version is above the committed one exactly when it did not wrap. */
  lemma GrantAboveIff(p: Primary, e: Event)
    requires p.lm.currentLM && InRange(p.lm) && e.AskWLock? && Representable(e)
    requires WLockAt(p, e).1.Granted?
    ensures WLockAt(p, e).1.version > Committed(p.lm.versionMap, e.key) <==> !WrapsRound(p.lm, e.key, e.version)
    ensures WrapsRound(p.lm, e.key, e.version) ==> WLockAt(p, e).1.version == 0
  {
  }

  lemma StepInRange(p: Primary, e: Event)
    requires p.lm.currentLM && InRange(p.lm) && Representable(e)
    ensures InRange(Step(p, e).lm)
  {
    StepDoes(p, e);
    hide Step;
  }

  lemma StepHeldAboveIff(p: Primary, e: Event)
    requires p.lm.currentLM && InRange(p.lm) && HeldAbove(p.lm) && Representable(e)
    ensures HeldAbove(Step(p, e).lm) <==> !GrantWraps(p, e)
  {
    StepDoes(p, e);
    hide Step;
    if GrantWraps(p, e) {
      assert e.key in Step(p, e).lm.wLocks;
    }
  }

  /** Held versions stay above the committed ones in every state of the run. */
  ghost predicate AlwaysHeldAbove(p: Primary, es: seq<Event>)
    requires p.lm.currentLM
    decreases |es|
  {
    HeldAbove(p.lm) && (es == [] || AlwaysHeldAbove(Step(p, es[0]), es[1..]))
  }

  /** Over any run, every held lock exceeds the committed version in every state iff no grant wraps. */
  lemma {:induction false} RunHeldAboveIff(p: Primary, es: seq<Event>)
    requires p.lm.currentLM && InRange(p.lm) && HeldAbove(p.lm) && AllRepresentable(es)
    ensures AlwaysHeldAbove(p, es) <==> NoGrantWraps(p, es)
    decreases |es|
  {
    hide HeldAbove, InRange, Step, GrantWraps, Representable;
    if es != [] {
      StepInRange(p, es[0]);
      StepHeldAboveIff(p, es[0]);
      if !GrantWraps(p, es[0]) {
        RunHeldAboveIff(Step(p, es[0]), es[1..]);
      } else if |es| > 1 {
        assert !AlwaysHeldAbove(Step(p, es[0]), es[1..]);
      }
    }
  }

  // ---------- a floor under every grant and every commit ----------

  /** Committed and held versions respect a floor: committed at it or above, held above. */
  ghost predicate OnFloor(s: State, floor: map<string, nat>) {
    forall k {:trigger KeyOnFloor(s, floor, k)} :: KeyOnFloor(s, floor, k)
  }

  ghost predicate KeyOnFloor(s: State, floor: map<string, nat>, k: string) {
    && Committed(floor, k) <= Committed(s.versionMap, k)
    && (k in s.wLocks ==> s.wLocks[k].version > Committed(floor, k))
  }

  ghost predicate VersionsAbove(vs: seq<Version>, floor: map<string, nat>) {
    forall i :: 0 <= i < |vs| ==> vs[i].version > Committed(floor, vs[i].key)
  }

  lemma StepKeepsFloor(p: Primary, e: Event, floor: map<string, nat>)
    requires p.lm.currentLM && InRange(p.lm) && Representable(e) && !GrantWraps(p, e) && OnFloor(p.lm, floor)
    ensures OnFloor(Step(p, e).lm, floor)
    ensures e.AskWLock? && WLockAt(p, e).1.Granted? ==> WLockAt(p, e).1.version > Committed(floor, e.key)
    ensures e.AskCommit? && CommitAt(p, e).1.Done? ==> e.version > Committed(floor, e.key)
  {
    StepDoes(p, e);
    hide Step, WLockAt, CommitAt;
    if EntryOf(p, e).Some? {
      assert KeyOnFloor(p.lm, floor, e.key);
    }
    forall k ensures KeyOnFloor(Step(p, e).lm, floor, k) {
      assert KeyOnFloor(p.lm, floor, k);
    }
  }

  /** A floor holds to the end of a run, and everything granted or committed on the way is above it. */
  lemma {:induction false} RunStaysAboveFloor(p: Primary, es: seq<Event>, floor: map<string, nat>)
    requires p.lm.currentLM && InRange(p.lm) && AllRepresentable(es) && NoGrantWraps(p, es) && OnFloor(p.lm, floor)
    ensures OnFloor(Run(p, es).lm, floor) && InRange(Run(p, es).lm)
    ensures VersionsAbove(Grants(p, es), floor)
    ensures VersionsAbove(Commits(p, es), floor)
    decreases |es|
  {
    hide OnFloor, InRange, Step, GrantWraps, Representable, WLockAt, CommitAt, Committed;
    if es != [] {
      StepInRange(p, es[0]);
      StepKeepsFloor(p, es[0], floor);
      RunStaysAboveFloor(Step(p, es[0]), es[1..], floor);
    }
  }

  // ---------- committed versions strictly increase ----------

  ghost predicate StrictlyIncreasing(vs: seq<Version>) {
    forall i, j :: 0 <= i < j < |vs| && vs[i].key == vs[j].key ==> vs[i].version < vs[j].version
  }

  /** An accepted commit raises its key's committed version to the one asked for; no other step touches it. */
  lemma StepCommits(p: Primary, e: Event)
    requires p.lm.currentLM && HeldAbove(p.lm)
    ensures if e.AskCommit? && CommitAt(p, e).1.Done?
            then Step(p, e).lm.versionMap == p.lm.versionMap[e.key := e.version]
              && e.version > Committed(p.lm.versionMap, e.key)
            else Step(p, e).lm.versionMap == p.lm.versionMap
  {
    StepDoes(p, e);
    hide Step, CommitAt;
  }

  /** Over a run without a wrapping grant, no version of a key is committed twice, nor below an earlier one. */
  lemma {:induction false} CommitsStrictlyIncrease(p: Primary, es: seq<Event>)
    requires p.lm.currentLM && InRange(p.lm) && HeldAbove(p.lm) && AllRepresentable(es) && NoGrantWraps(p, es)
    ensures StrictlyIncreasing(Commits(p, es))
    decreases |es|
  {
    hide HeldAbove, InRange, Step, GrantWraps, Representable, CommitAt;
    if es != [] {
      var q := Step(p, es[0]);
      StepInRange(p, es[0]);
      StepHeldAboveIff(p, es[0]);
      StepCommits(p, es[0]);
      CommitsStrictlyIncrease(q, es[1..]);
      HeldAboveIsFloor(q.lm);
      RunStaysAboveFloor(q, es[1..], q.lm.versionMap);
    }
  }

  lemma HeldAboveIsFloor(s: State)
    requires HeldAbove(s)
    ensures OnFloor(s, s.versionMap)
  {
  }

  /** The guard is needed: at the largest version a lock for the "next" one takes the key back to 0. */
  lemma WrappedCommitGoesBack(p: Primary, key: string, timeout: nat, nodeId: string, lockId: string)
    requires p.lm.currentLM && key !in p.lm.wLocks && Committed(p.lm.versionMap, key) == UINT - 1
    ensures var q := Run(p, [AskWLock(key, 0, timeout, nodeId, lockId, Sent([])), AskCommit(key, 0, Sent([]))]);
            key in q.lm.versionMap && q.lm.versionMap[key] == 0
  {
    var e0, e1 := AskWLock(key, 0, timeout, nodeId, lockId, Sent([])), AskCommit(key, 0, Sent([]));
    assert Run(Step(p, e0), [e1]) == Run(Step(Step(p, e0), e1), []);
    assert [e0, e1][1..] == [e1];
    assert FullyReplicated(Sent([]));
  }

  // ---------- the log replays to the live state ----------

  /** A write lock without the node that asked for it, which a log entry does not record. */
  datatype Terms = Terms(lockId: string, version: nat, timeout: int)

  function TermsOf(w: WLockEntry): Terms {
    Terms(w.lockId, w.version, w.timeout)
  }

  /** The locks not past their timeout. */
  function LiveTerms(wLocks: map<string, WLockEntry>, now: int): map<string, Terms> {
    map k | k in wLocks && wLocks[k].timeout > now :: TermsOf(wLocks[k])
  }

  /** A key's live lock is in the replay on the same terms; a lock only in the replay is past its timeout. */
  ghost predicate LockMatches(live: map<string, WLockEntry>, replayed: map<string, WLockEntry>, now: int, k: string) {
    && (k in live ==> k in replayed && TermsOf(replayed[k]) == TermsOf(live[k]))
    && (k in replayed && k !in live ==> replayed[k].timeout <= now)
  }

  ghost predicate LocksMatch(live: map<string, WLockEntry>, replayed: map<string, WLockEntry>, now: int) {
    forall k {:trigger LockMatches(live, replayed, now, k)} :: LockMatches(live, replayed, now, k)
  }

  /** The log replays to the version map exactly, and to the live locks up to expired ones. */
  ghost predicate LogMatches(p: Primary) {
    var r := Replay(p.lm.opsLog);
    r.versionMap == p.lm.versionMap && LocksMatch(p.lm.wLocks, r.wLocks, p.clock)
  }

  lemma ReplayAppend(log: seq<LogEntry>, e: LogEntry)
    ensures Replay(log + [e]) == ReplayOne(Replay(log), e)
  {
  }

  lemma EntryKeepsMatch(live: map<string, WLockEntry>, r: Replayed, now: int, x: LogEntry, nodeId: string)
    requires LocksMatch(live, r.wLocks, now)
    ensures LocksMatch(WLocksAfter(live, x, nodeId), ReplayOne(r, x).wLocks, now)
  {
    var live', r' := WLocksAfter(live, x, nodeId), ReplayOne(r, x).wLocks;
    forall k ensures LockMatches(live', r', now, k) {
      assert LockMatches(live, r.wLocks, now, k);
    }
  }

  lemma TimeKeepsMatch(s: State, replayed: map<string, WLockEntry>, now: int, later: int)
    requires LocksMatch(s.wLocks, replayed, now) && now <= later
    ensures LocksMatch(s.wLocks, replayed, later)
    ensures LocksMatch(Expire(s, now).wLocks, replayed, now)
  {
    forall k ensures LockMatches(s.wLocks, replayed, later, k) && LockMatches(Expire(s, now).wLocks, replayed, now, k) {
      assert LockMatches(s.wLocks, replayed, now, k);
    }
  }

  lemma StepKeepsLogMatches(p: Primary, e: Event)
    requires p.lm.currentLM && LogMatches(p)
    ensures LogMatches(Step(p, e))
  {
    StepDoes(p, e);
    hide Step, Replay, LocksMatch, LockMatches, Expire, WLocksAfter, EntryOf, FullyReplicated;
    var r := Replay(p.lm.opsLog);
    match EntryOf(p, e) {
      case None =>
        TimeKeepsMatch(p.lm, r.wLocks, p.clock, Step(p, e).clock);
      case Some(x) =>
        assert p.lm.opsLog + [] == p.lm.opsLog;
        ReplayAppend(p.lm.opsLog, x);
        if FullyReplicated(e.repl) {
          EntryKeepsMatch(p.lm.wLocks, r, p.clock, x, if e.AskWLock? then e.nodeId else "");
        }
    }
  }

  lemma {:induction false} RunKeepsLogMatches(p: Primary, es: seq<Event>)
    requires p.lm.currentLM && LogMatches(p)
    ensures LogMatches(Run(p, es))
    decreases |es|
  {
    hide LogMatches, Step;
    if es != [] {
      StepKeepsLogMatches(p, es[0]);
      RunKeepsLogMatches(Step(p, es[0]), es[1..]);
    }
  }

  /** The primary at the start of a term: it takes over and replays whatever log it has. */
  function TakeOver(s: State, clock: int, vn: string, host: string): (p: Primary)
    ensures p.lm.currentLM && p.lm.opsLog == s.opsLog
  {
    Primary(AfterReplay(s).(currentLM := true), clock, vn, host)
  }

  /**
   * Throughout a term that begins with a replay, replaying the log again gives the live
   * version map, and the live write locks once those past their timeout are dropped.
   */
  lemma ReplayIsLive(s: State, clock: int, vn: string, host: string, es: seq<Event>)
    ensures var p := Run(TakeOver(s, clock, vn, host), es);
            var r := Replay(p.lm.opsLog);
            && r.versionMap == p.lm.versionMap
            && LiveTerms(r.wLocks, p.clock) == LiveTerms(p.lm.wLocks, p.clock)
  {
    var p := TakeOver(s, clock, vn, host);
    assert LocksMatch(p.lm.wLocks, Replay(p.lm.opsLog).wLocks, p.clock);
    RunKeepsLogMatches(p, es);
    MatchAgreesLive(Run(p, es).lm.wLocks, Replay(Run(p, es).lm.opsLog).wLocks, Run(p, es).clock);
  }

  lemma MatchAgreesLive(live: map<string, WLockEntry>, replayed: map<string, WLockEntry>, now: int)
    requires LocksMatch(live, replayed, now)
    ensures LiveTerms(live, now) == LiveTerms(replayed, now)
  {
    forall k ensures k in LiveTerms(live, now) <==> k in LiveTerms(replayed, now)
      ensures k in LiveTerms(live, now) ==> LiveTerms(live, now)[k] == LiveTerms(replayed, now)[k] {
      assert LockMatches(live, replayed, now, k);
    }
  }

  /** Dropping them is needed: a lock that the ticker expired is still in the log. */
  lemma ExpiredLockStaysInLog(p: Primary, key: string, lockId: string)
    requires p.lm.currentLM && key !in p.lm.wLocks
    ensures var q := Run(p, [AskWLock(key, 0, 10, "", lockId, Sent([])), Elapse(10 * SECOND), Ticker]);
            key !in q.lm.wLocks && key in Replay(q.lm.opsLog).wLocks
  {
    var e := AskWLock(key, 0, 10, "", lockId, Sent([]));
    var es := [e, Elapse(10 * SECOND), Ticker];
    assert es[1..][1..] == [Ticker] && [Ticker][1..] == [];
    assert FullyReplicated(Sent([]));
    var p1 := Step(p, e);
    ReplayAppend(p.lm.opsLog, p1.lm.opsLog[|p.lm.opsLog|]);
    assert Run(p, es) == Run(p1, es[1..]);
    assert Run(p1, es[1..]) == Run(Step(p1, es[1]), [Ticker]);
    assert Run(Step(p1, es[1]), [Ticker]) == Step(Step(p1, es[1]), Ticker);
  }
}
