/**
 * A primary's term as seen by one of its backups, and the backup's own term after it takes
 * over: what a client saw committed is never lost and never granted again.
 */
module Failover {
  import opened Wrappers
  import opened LockManager
  import opened LockRuns
  import opened LogReplay

  /** Backup i stays in the replica set: every message of the operation reaches its turn or an earlier failure. */
  predicate InReplicaSet(e: Event, i: nat) {
    (e.AskWLock? || e.AskCommit? || e.AskAbort? || e.AskRLock?) && e.repl.Sent? ==> i < |e.repl.replies|
  }

  ghost predicate AlwaysInReplicaSet(es: seq<Event>, i: nat) {
    forall j :: 0 <= j < |es| ==> InReplicaSet(es[j], i)
  }

  /** A backup's handler for a forwarded entry; None is the index out of range of `appendToLog`. */
  function Deliver(b: State, x: LogEntry): Option<State>
    requires !b.currentLM && b.commitIndex >= -1
  {
    if !Appendable(b.opsLog, x) then None
    else
      match x.op
      case WRITE => Some(WLock(b, x.key, x.version, 0, x.vn, Some(x), 0, "", "", "", LookupFailed).0)
      case COMMIT => Some(Commit(b, x.key, x.version, Some(x), "", "", LookupFailed).0)
      case ABORT => Some(Abort(b, x.key, x.version, Some(x), "", "", LookupFailed).0)
      case READ => Some(RLock(b, x.key, x.vn, "", Some(x), "", "", "", LookupFailed).0)
  }

  predicate IsBackup(b: State) {
    !b.currentLM && b.commitIndex >= -1
  }

  /** Backup i's share of one step of the primary. */
  function BackupStep(p: Primary, e: Event, i: nat, b: State): (r: Option<State>)
    requires p.lm.currentLM && IsBackup(b)
    ensures r.Some? ==> IsBackup(r.value)
  {
    if EntryOf(p, e).Some? && ReceivedBy(e.repl, i) then Deliver(b, EntryOf(p, e).value) else Some(b)
  }

  function BackupRun(p: Primary, es: seq<Event>, i: nat, b: State): (r: Option<State>)
    requires p.lm.currentLM && IsBackup(b)
    ensures r.Some? ==> IsBackup(r.value)
    decreases |es|
  {
    if es == [] then Some(b)
    else
      var b' := BackupStep(p, es[0], i, b);
      if b'.None? then None else BackupRun(Step(p, es[0]), es[1..], i, b'.value)
  }

  // ---------- what a backup's log is worth ----------

  /** A key's replayed version is at least the primary's; a replayed lock is above the primary's version. */
  ghost predicate KeyCovered(versionMap: map<string, nat>, r: Replayed, k: string) {
    && Committed(versionMap, k) <= Committed(r.versionMap, k) < UINT
    && (k in r.wLocks ==> Committed(versionMap, k) < r.wLocks[k].version < UINT)
  }

  ghost predicate Covers(versionMap: map<string, nat>, r: Replayed) {
    forall k {:trigger KeyCovered(versionMap, r, k)} :: KeyCovered(versionMap, r, k)
  }

  ghost predicate Follows(p: Primary, b: State) {
    && IsBackup(b) && SortedOpNums(b.opsLog)
    && (b.opsLog != [] ==> b.opsLog[0].opNum <= p.lm.currOpNum + 1)
    && Covers(p.lm.versionMap, Replay(b.opsLog))
  }

  /** No request asks for the version after the largest uint. */
  predicate NoRequestWraps(p: Primary, es: seq<Event>)
    requires p.lm.currentLM
    decreases |es|
  {
    es == [] ||
    (!(es[0].AskWLock? && WrapsRound(p.lm, es[0].key, es[0].version)) && NoRequestWraps(Step(p, es[0]), es[1..]))
  }

  /** What the primary knows of the entry it is about to replicate. */
  ghost predicate Sound(versionMap: map<string, nat>, x: LogEntry) {
    x.op == WRITE || x.op == COMMIT ==> Committed(versionMap, x.key) < x.version < UINT
  }

  lemma EntryIsSound(p: Primary, e: Event)
    requires p.lm.currentLM && InRange(p.lm) && HeldAbove(p.lm) && Representable(e)
    requires !(e.AskWLock? && WrapsRound(p.lm, e.key, e.version))
    ensures EntryOf(p, e).Some? ==> Sound(p.lm.versionMap, EntryOf(p, e).value)
  {
  }

  /** A backup that appends the entry stays ahead whether or not the primary goes on to apply it. */
  lemma EntryKeepsCovers(versionMap: map<string, nat>, r: Replayed, x: LogEntry)
    requires Covers(versionMap, r) && Sound(versionMap, x)
    ensures Covers(versionMap, ReplayOne(r, x))
    ensures Covers(VersionMapAfter(versionMap, x), ReplayOne(r, x))
  {
    var after, r' := VersionMapAfter(versionMap, x), ReplayOne(r, x);
    forall k ensures KeyCovered(versionMap, r', k) && KeyCovered(after, r', k) {
      assert KeyCovered(versionMap, r, k);
    }
  }

  /** Whatever the operation, a backup appends the entry it is sent. */
  lemma DeliverIsAppended(b: State, x: LogEntry)
    requires IsBackup(b)
    ensures Deliver(b, x) == if Appendable(b.opsLog, x) then Some(Appended(b, x)) else None
  {
  }

  lemma AppendedStaysBackup(b: State, x: LogEntry)
    requires IsBackup(b) && Appendable(b.opsLog, x)
    ensures IsBackup(Appended(b, x))
  {
  }

  lemma DeliverAppends(b: State, x: LogEntry, opNum: nat)
    requires IsBackup(b) && SortedOpNums(b.opsLog) && (b.opsLog != [] ==> b.opsLog[0].opNum <= x.opNum) && x.opNum <= opNum
    ensures var b' := Deliver(b, x);
            && b'.Some? && IsBackup(b'.value) && SortedOpNums(b'.value.opsLog)
            && b'.value.opsLog != [] && b'.value.opsLog[0].opNum <= opNum
            && Replay(b'.value.opsLog) == ReplayOne(Replay(b.opsLog), x)
  {
    DeliverIsAppended(b, x);
    AppendSortsNumbersOnly(b, x);
    FirstNumberAtMost(b, x);
    AppendedStaysBackup(b, x);
    hide Deliver, Appended, Replay, ReplayOne, SortedOpNums;
  }

  lemma FirstNumberAtMost(s: State, e: LogEntry)
    requires Appendable(s.opsLog, e) && s.commitIndex >= -1
    ensures Appended(s, e).opsLog != [] && Appended(s, e).opsLog[0].opNum <= e.opNum
  {
    var log := s.opsLog + [e];
    if |log| > 1 {
      SinkKeepsFirst(log, |log| - 1);
    }
  }

  lemma {:induction false} SinkKeepsFirst(log: seq<LogEntry>, i: nat)
    requires i < |log| && log[0].opNum <= log[i].opNum
    ensures SinkOpNum(log, i)[0].opNum == log[0].opNum
    decreases i
  {
    if i > 0 && log[i].opNum < log[i - 1].opNum {
      SinkKeepsFirst(SwapOpNums(log, i), i - 1);
    }
  }

  lemma StepKeepsFollows(p: Primary, e: Event, i: nat, b: State)
    requires p.lm.currentLM && InRange(p.lm) && HeldAbove(p.lm) && Representable(e) && InReplicaSet(e, i)
    requires !(e.AskWLock? && WrapsRound(p.lm, e.key, e.version)) && Follows(p, b)
    ensures BackupStep(p, e, i, b).Some? && Follows(Step(p, e), BackupStep(p, e, i, b).value)
  {
    StepDoes(p, e);
    EntryIsSound(p, e);
    hide Step, Covers, Sound, Deliver, Replay, ReplayOne, HeldAbove, InRange;
    if EntryOf(p, e).Some? {
      var x := EntryOf(p, e).value;
      EntryKeepsCovers(p.lm.versionMap, Replay(b.opsLog), x);
      DeliverAppends(b, x, x.opNum);
    }
  }

  lemma {:induction false} RunKeepsFollows(p: Primary, es: seq<Event>, i: nat, b: State)
    requires p.lm.currentLM && InRange(p.lm) && HeldAbove(p.lm) && AllRepresentable(es) && AlwaysInReplicaSet(es, i)
    requires NoRequestWraps(p, es) && Follows(p, b)
    ensures BackupRun(p, es, i, b).Some? && Follows(Run(p, es), BackupRun(p, es, i, b).value)
    decreases |es|
  {
    hide HeldAbove, InRange, Step, BackupStep, WrapsRound, InReplicaSet, Representable, Covers, SortedOpNums, Replay;
    if es != [] {
      StepInRange(p, es[0]);
      StepHeldAboveIff(p, es[0]);
      StepKeepsFollows(p, es[0], i, b);
      RunKeepsFollows(Step(p, es[0]), es[1..], i, BackupStep(p, es[0], i, b).value);
    }
  }

  // ---------- taking over ----------

  lemma NoRequestNoGrantWraps(p: Primary, es: seq<Event>)
    requires p.lm.currentLM && NoRequestWraps(p, es)
    ensures NoGrantWraps(p, es)
    decreases |es|
  {
    if es != [] {
      NoRequestNoGrantWraps(Step(p, es[0]), es[1..]);
    }
  }

  lemma CoversIsFloor(versionMap: map<string, nat>, b: State, clock: int, vn: string, host: string)
    requires Covers(versionMap, Replay(b.opsLog))
    ensures OnFloor(TakeOver(b, clock, vn, host).lm, versionMap)
    ensures InRange(TakeOver(b, clock, vn, host).lm)
  {
    var r := Replay(b.opsLog);
    var s := TakeOver(b, clock, vn, host).lm;
    hide Replay;
    forall k ensures KeyOnFloor(s, versionMap, k) && (k in s.versionMap ==> s.versionMap[k] < UINT)
      && (k in s.wLocks ==> s.wLocks[k].version < UINT) {
      assert KeyCovered(versionMap, r, k);
    }
  }

  /** A version acknowledged as committed stays at or below the primary's committed version. */
  lemma {:induction false} AcknowledgedStays(p: Primary, es: seq<Event>, j: nat)
    requires p.lm.currentLM && InRange(p.lm) && HeldAbove(p.lm) && AllRepresentable(es) && NoGrantWraps(p, es)
    requires j < |Commits(p, es)|
    ensures Commits(p, es)[j].version <= Committed(Run(p, es).lm.versionMap, Commits(p, es)[j].key)
    decreases |es|
  {
    hide HeldAbove, InRange, Step, GrantWraps, Representable, CommitAt;
    var q := Step(p, es[0]);
    var here := es[0].AskCommit? && CommitAt(p, es[0]).1.Done?;
    StepInRange(p, es[0]);
    StepHeldAboveIff(p, es[0]);
    if here && j == 0 {
      StepCommits(p, es[0]);
      HeldAboveIsFloor(q.lm);
      RunStaysAboveFloor(q, es[1..], q.lm.versionMap);
      assert KeyOnFloor(Run(q, es[1..]).lm, q.lm.versionMap, es[0].key);
    } else {
      AcknowledgedStays(q, es[1..], if here then j - 1 else j);
    }
  }

  /** The primary and a backup as a ring starts them. */
  ghost predicate Genesis(p: Primary, b: State) {
    && p.lm == State(true, map[], map[], map[], 0, [], 0, -1)
    && b == State(false, map[], map[], map[], 0, [], 0, -1)
  }

  /**
   * Durability: however the primary's replications fail on the way, a backup of its whole
   * term never panics and replays to a committed version at least the primary's for every key.
   */
  lemma CommitsSurvive(p: Primary, es: seq<Event>, i: nat, b: State)
    requires Genesis(p, b) && AllRepresentable(es) && AlwaysInReplicaSet(es, i) && NoRequestWraps(p, es)
    ensures BackupRun(p, es, i, b).Some?
    ensures var r := Replay(BackupRun(p, es, i, b).value.opsLog);
            forall k :: Committed(Run(p, es).lm.versionMap, k) <= Committed(r.versionMap, k)
  {
    GenesisFollows(p, b);
    RunKeepsFollows(p, es, i, b);
    var v, r := Run(p, es).lm.versionMap, Replay(BackupRun(p, es, i, b).value.opsLog);
    forall k ensures Committed(v, k) <= Committed(r.versionMap, k) {
      assert KeyCovered(v, r, k);
    }
  }

  lemma GenesisFollows(p: Primary, b: State)
    requires Genesis(p, b)
    ensures Follows(p, b)
  {
  }

  /** A version granted or committed in the second list is above every one of that key in the first. */
  ghost predicate AllAbove(later: seq<Version>, earlier: seq<Version>) {
    forall i, j :: 0 <= i < |later| && 0 <= j < |earlier| && later[i].key == earlier[j].key ==>
      later[i].version > earlier[j].version
  }

  /**
   * Failover: when the backup takes over, every version it ever grants or commits is above
   * every version the old primary acknowledged as committed.
   */
  lemma FailoverNeverRegrants(
    p: Primary, es: seq<Event>, i: nat, b: State, clock: int, vn: string, host: string, later: seq<Event>)
    requires Genesis(p, b) && AllRepresentable(es) && AlwaysInReplicaSet(es, i) && NoRequestWraps(p, es)
    requires AllRepresentable(later) && BackupRun(p, es, i, b).Some?
    requires NoRequestWraps(TakeOver(BackupRun(p, es, i, b).value, clock, vn, host), later)
    ensures var q := TakeOver(BackupRun(p, es, i, b).value, clock, vn, host);
            AllAbove(Grants(q, later), Commits(p, es)) && AllAbove(Commits(q, later), Commits(p, es))
  {
    GenesisFollows(p, b);
    RunKeepsFollows(p, es, i, b);
    NoRequestNoGrantWraps(p, es);
    var b', floor := BackupRun(p, es, i, b).value, Run(p, es).lm.versionMap;
    CoversIsFloor(floor, b', clock, vn, host);
    var q := TakeOver(b', clock, vn, host);
    NoRequestNoGrantWraps(q, later);
    RunStaysAboveFloor(q, later, floor);
    assert InRange(p.lm) && HeldAbove(p.lm);
    forall j | 0 <= j < |Commits(p, es)| ensures Commits(p, es)[j].version <= Committed(floor, Commits(p, es)[j].key) {
      AcknowledgedStays(p, es, j);
    }
    AboveFloorAboveAll(Grants(q, later), Commits(p, es), floor);
    AboveFloorAboveAll(Commits(q, later), Commits(p, es), floor);
  }

  lemma AboveFloorAboveAll(later: seq<Version>, earlier: seq<Version>, floor: map<string, nat>)
    requires VersionsAbove(later, floor)
    requires forall j :: 0 <= j < |earlier| ==> earlier[j].version <= Committed(floor, earlier[j].key)
    ensures AllAbove(later, earlier)
  {
  }

  // ---------- what a backup's log replays to ----------

  /** The entry of a step, if it has one that reaches backup i. */
  function ReceivedOf(p: Primary, e: Event, i: nat): seq<LogEntry>
    requires p.lm.currentLM
  {
    if EntryOf(p, e).Some? && ReceivedBy(e.repl, i) then [EntryOf(p, e).value] else []
  }

  /** The entries that reach backup i over a run, in order. */
  function Received(p: Primary, es: seq<Event>, i: nat): seq<LogEntry>
    requires p.lm.currentLM
    decreases |es|
  {
    if es == [] then [] else ReceivedOf(p, es[0], i) + Received(Step(p, es[0]), es[1..], i)
  }

  /** A backup whose log can take the entry numbered n. */
  ghost predicate Ready(b: State, n: nat) {
    IsBackup(b) && SortedOpNums(b.opsLog) && (b.opsLog != [] ==> b.opsLog[0].opNum <= n)
  }

  lemma NumbersGrow(p: Primary, e: Event)
    requires p.lm.currentLM
    ensures Step(p, e).lm.currOpNum >= p.lm.currOpNum
    ensures EntryOf(p, e).Some? ==> EntryOf(p, e).value.opNum == p.lm.currOpNum + 1
  {
    StepDoes(p, e);
    hide Step;
  }

  lemma StepKeepsReady(p: Primary, e: Event, i: nat, b: State, log: seq<LogEntry>)
    requires p.lm.currentLM && Ready(b, p.lm.currOpNum + 1) && Replay(b.opsLog) == Replay(log)
    ensures var b' := BackupStep(p, e, i, b);
            && b'.Some? && Ready(b'.value, Step(p, e).lm.currOpNum + 1)
            && Replay(b'.value.opsLog) == Replay(log + ReceivedOf(p, e, i))
  {
    NumbersGrow(p, e);
    assert log + [] == log;
    if EntryOf(p, e).Some? && ReceivedBy(e.repl, i) {
      DeliverAppends(b, EntryOf(p, e).value, p.lm.currOpNum + 1);
      ReplayAppend(log, EntryOf(p, e).value);
    }
    hide Step, Deliver, Replay, ReplayOne, EntryOf, SortedOpNums, ReceivedBy;
  }

  /** However its term goes, a backup's append stays in range and its log replays as the entries that reached it. */
  lemma {:induction false} BackupReplaysReceived(p: Primary, es: seq<Event>, i: nat, b: State, log: seq<LogEntry>)
    requires p.lm.currentLM && Ready(b, p.lm.currOpNum + 1) && Replay(b.opsLog) == Replay(log)
    ensures IsBackup(b) && BackupRun(p, es, i, b).Some?
    ensures Replay(BackupRun(p, es, i, b).value.opsLog) == Replay(log + Received(p, es, i))
    decreases |es|
  {
    hide Step, Replay, BackupStep, SortedOpNums, ReceivedOf;
    if es == [] {
      assert log + [] == log;
    } else {
      StepKeepsReady(p, es[0], i, b, log);
      var one, rest := ReceivedOf(p, es[0], i), Received(Step(p, es[0]), es[1..], i);
      BackupReplaysReceived(Step(p, es[0]), es[1..], i, BackupStep(p, es[0], i, b).value, log + one);
      assert log + one + rest == log + (one + rest);
    }
  }

  // ---------- arrivals in any order ----------

  /** Entries arriving one after the other; None once an append went out of range. */
  function DeliverAll(b: State, xs: seq<LogEntry>): (r: Option<State>)
    requires IsBackup(b)
    ensures r.Some? ==> IsBackup(r.value)
    decreases |xs|
  {
    if xs == [] then Some(b)
    else
      DeliverIsAppended(b, xs[0]);
      var b' := Deliver(b, xs[0]);
      if b'.None? then None else
        AppendedStaysBackup(b, xs[0]);
        DeliverAll(b'.value, xs[1..])
  }

  /** The smallest number a log can still take: that of its first entry, or of the first to arrive. */
  predicate NoneBelow(log: seq<LogEntry>, xs: seq<LogEntry>) {
    forall i :: 0 <= i < |xs| ==> (log + xs)[0].opNum <= xs[i].opNum
  }

  lemma FirstNumberStays(b: State, x: LogEntry)
    requires IsBackup(b) && Appendable(b.opsLog, x)
    ensures Appended(b, x).opsLog != []
    ensures Appended(b, x).opsLog[0].opNum == (b.opsLog + [x])[0].opNum
  {
    var log := b.opsLog + [x];
    if |log| > 1 {
      SinkKeepsFirst(log, |log| - 1);
    }
  }

  lemma DeliverOne(b: State, x: LogEntry)
    requires IsBackup(b) && SortedOpNums(b.opsLog)
    ensures Deliver(b, x).Some? <==> Appendable(b.opsLog, x)
    ensures Deliver(b, x).Some? ==>
      var b' := Deliver(b, x).value;
      && IsBackup(b') && SortedOpNums(b'.opsLog) && b'.opsLog != []
      && b'.opsLog[0].opNum == (b.opsLog + [x])[0].opNum
      && Replay(b'.opsLog) == Replay(b.opsLog + [x])
  {
    DeliverIsAppended(b, x);
    if Appendable(b.opsLog, x) {
      AppendedStaysBackup(b, x);
      AppendSortsNumbersOnly(b, x);
      FirstNumberStays(b, x);
      ReplayAppend(b.opsLog, x);
    }
    hide Deliver, Appended, SortedOpNums, SameContents, Replay, ReplayOne;
  }

  /** Arrivals in any order are all taken exactly when none is numbered below the first one. */
  lemma {:induction false} DeliverAllIff(b: State, xs: seq<LogEntry>)
    requires IsBackup(b) && SortedOpNums(b.opsLog)
    ensures DeliverAll(b, xs).Some? <==> NoneBelow(b.opsLog, xs)
    decreases |xs|
  {
    hide Deliver, SortedOpNums, Replay;
    if xs != [] {
      DeliverOne(b, xs[0]);
      if Appendable(b.opsLog, xs[0]) {
        var b' := Deliver(b, xs[0]).value;
        NoneBelowNext(b.opsLog, b'.opsLog, xs);
        DeliverAllIff(b', xs[1..]);
        hide NoneBelow;
      }
    }
  }

  /** A log that took all arrivals replays as they came. */
  lemma {:induction false} DeliverAllReplays(b: State, xs: seq<LogEntry>, log: seq<LogEntry>)
    requires IsBackup(b) && SortedOpNums(b.opsLog) && DeliverAll(b, xs).Some? && Replay(b.opsLog) == Replay(log)
    ensures Replay(DeliverAll(b, xs).value.opsLog) == Replay(log + xs)
    decreases |xs|
  {
    hide Deliver, SortedOpNums, Replay;
    if xs == [] {
      assert log + xs == log;
    } else {
      DeliverOne(b, xs[0]);
      var b' := Deliver(b, xs[0]).value;
      ReplayAppend(b.opsLog, xs[0]);
      ReplayAppend(log, xs[0]);
      DeliverAllReplays(b', xs[1..], log + [xs[0]]);
      assert log + [xs[0]] + xs[1..] == log + xs;
    }
  }

  lemma NoneBelowNext(log: seq<LogEntry>, log': seq<LogEntry>, xs: seq<LogEntry>)
    requires xs != [] && log' != [] && log'[0].opNum == (log + [xs[0]])[0].opNum && Appendable(log, xs[0])
    ensures NoneBelow(log, xs) <==> NoneBelow(log', xs[1..])
  {
    assert forall i :: 0 < i < |xs| ==> xs[i] == xs[1..][i - 1];
    assert forall i :: 0 <= i < |xs| - 1 ==> xs[1..][i] == xs[i + 1];
  }

  /** What a backup rebuilds after arrivals that it could take. */
  function RebuiltAfter(b: State, xs: seq<LogEntry>): (map<string, nat>, map<string, WLockEntry>)
    requires IsBackup(b) && DeliverAll(b, xs).Some?
  {
    (Replay(DeliverAll(b, xs).value.opsLog).versionMap, Replay(DeliverAll(b, xs).value.opsLog).wLocks)
  }

  /**
   * Two arrival orders leave a backup with the same versions and locks exactly when they
   * leave every key alike: the same lock by its last change and the same last COMMIT.
   */
  lemma ArrivalOrdersAgreeIff(b: State, xs: seq<LogEntry>, ys: seq<LogEntry>)
    requires IsBackup(b) && SortedOpNums(b.opsLog) && DeliverAll(b, xs).Some? && DeliverAll(b, ys).Some?
    ensures RebuiltAfter(b, xs) == RebuiltAfter(b, ys) <==> LeaveAlike(b.opsLog + xs, b.opsLog + ys)
  {
    DeliverAllReplays(b, xs, b.opsLog);
    DeliverAllReplays(b, ys, b.opsLog);
    ReplaysAgreeIff(b.opsLog + xs, b.opsLog + ys);
  }

  /**
   * An order that does not: after some earlier entry, a commit that overtakes its lock
   * request leaves the backup with a lock that in order it would not have.
   */
  lemma OvertakenLockStays(b: State, first: LogEntry, w: LogEntry, c: LogEntry)
    requires IsBackup(b) && b.opsLog == [] && first.opNum < w.opNum < c.opNum
    requires w.op == WRITE && c.op == COMMIT && w.key == c.key
    ensures DeliverAll(b, [first, w, c]).Some? && w.key !in RebuiltAfter(b, [first, w, c]).1
    ensures DeliverAll(b, [first, c, w]).Some? && w.key in RebuiltAfter(b, [first, c, w]).1
  {
    var xs, ys := [first, w, c], [first, c, w];
    assert LastChange(xs, w.key) == Some(c) && LastChange(ys, w.key) == Some(w);
    hide DeliverAll, Replay, LastChange, LastCommit, SinkOpNum;
    DeliverAllIff(b, xs);
    DeliverAllIff(b, ys);
    assert [] + xs == xs && [] + ys == ys;
    DeliverAllReplays(b, xs, []);
    DeliverAllReplays(b, ys, []);
    ReplayIsLastEntries(xs, w.key);
    ReplayIsLastEntries(ys, w.key);
  }

  /** As the very first arrival the commit leaves no room for its lock at all. */
  lemma OvertakenFirstPanics(b: State, w: LogEntry, c: LogEntry)
    requires IsBackup(b) && b.opsLog == [] && w.opNum < c.opNum
    ensures DeliverAll(b, [c, w]).None?
  {
    DeliverAllIff(b, [c, w]);
    assert [c, w][1] == w;
  }

  // ---------- the commit index over arrivals ----------

  /** Nothing is missing up to the commit index, in every state that the arrivals lead through. */
  ghost predicate AlwaysContiguous(b: State, xs: seq<LogEntry>)
    requires IsBackup(b) && DeliverAll(b, xs).Some?
    decreases |xs|
  {
    ContiguousTo(b.opsLog, b.commitIndex) && (xs == [] || AlwaysContiguous(Deliver(b, xs[0]).value, xs[1..]))
  }

  /** No arrival lets the loop pass a gap: above the index, a missing number and then two in sequence. */
  ghost predicate NoGapPassed(b: State, xs: seq<LogEntry>)
    requires IsBackup(b) && DeliverAll(b, xs).Some?
    decreases |xs|
  {
    xs == [] ||
    (var b' := Deliver(b, xs[0]).value;
     !GapThenPair(b'.opsLog, b.commitIndex + 1) && NoGapPassed(b', xs[1..]))
  }

  /** Numbers that arrive are new to the log, and to each other. */
  ghost predicate FreshNumbers(log: seq<LogEntry>, xs: seq<LogEntry>) {
    && (forall i, j :: 0 <= i < |log| && 0 <= j < |xs| ==> log[i].opNum != xs[j].opNum)
    && (forall i, j :: 0 <= i < j < |xs| ==> xs[i].opNum != xs[j].opNum)
  }

  /** The commit index points into the log, or just before it. */
  ghost predicate IndexInLog(b: State) {
    IsBackup(b) && b.commitIndex < |b.opsLog| && (b.opsLog == [] ==> b.commitIndex == -1)
  }

  lemma DeliverMovesIndex(b: State, x: LogEntry)
    requires IndexInLog(b) && Appendable(b.opsLog, x) && ContiguousTo(b.opsLog, b.commitIndex)
    requires forall j :: 0 <= j < |b.opsLog| ==> b.opsLog[j].opNum != x.opNum
    ensures Deliver(b, x) == Some(Appended(b, x)) && IndexInLog(Appended(b, x))
    ensures var b' := Appended(b, x);
            ContiguousTo(b'.opsLog, b'.commitIndex) <==> !GapThenPair(b'.opsLog, b.commitIndex + 1)
  {
    DeliverIsAppended(b, x);
    AppendedStaysBackup(b, x);
    if b.opsLog != [] {
      CommitIndexReachesEndIff(b, x);
      NewNumberKeepsContiguous(b, x, b.commitIndex);
      CommitIndexStopsIff(b, x);
      hide Appended, Deliver, ContiguousTo, GapThenPair, NoGapFrom;
    }
  }

  lemma {:induction false} SinkKeepsNumbers(log: seq<LogEntry>, i: nat, n: nat)
    requires i < |log| && log[0].opNum <= log[i].opNum && forall j :: 0 <= j < |log| ==> log[j].opNum != n
    ensures forall j :: 0 <= j < |log| ==> SinkOpNum(log, i)[j].opNum != n
    decreases i
  {
    if i > 0 && log[i].opNum < log[i - 1].opNum {
      SinkKeepsNumbers(SwapOpNums(log, i), i - 1, n);
    }
  }

  lemma FreshAfter(b: State, xs: seq<LogEntry>)
    requires IsBackup(b) && xs != [] && Appendable(b.opsLog, xs[0]) && FreshNumbers(b.opsLog, xs)
    ensures FreshNumbers(Appended(b, xs[0]).opsLog, xs[1..])
  {
    var log := b.opsLog + [xs[0]];
    forall j | 0 <= j < |xs[1..]| ensures forall i :: 0 <= i < |log| ==> Appended(b, xs[0]).opsLog[i].opNum != xs[1..][j].opNum {
      assert xs[1..][j] == xs[j + 1];
      SinkKeepsNumbers(log, |log| - 1, xs[j + 1].opNum);
    }
  }

  /**
   * Over any arrivals with fresh numbers, the commit index never covers a missing number
   * exactly when no arrival finds, above the index, a gap followed by two numbers in sequence.
   */
  lemma {:induction false} IndexStaysContiguousIff(b: State, xs: seq<LogEntry>)
    requires IndexInLog(b) && DeliverAll(b, xs).Some? && FreshNumbers(b.opsLog, xs) && ContiguousTo(b.opsLog, b.commitIndex)
    ensures AlwaysContiguous(b, xs) <==> NoGapPassed(b, xs)
    decreases |xs|
  {
    if xs != [] {
      DeliverIsAppended(b, xs[0]);
      DeliverMovesIndex(b, xs[0]);
      FreshAfter(b, xs);
      var b' := Appended(b, xs[0]);
      hide Appended, Deliver, ContiguousTo, GapThenPair, FreshNumbers;
      if !GapThenPair(b'.opsLog, b.commitIndex + 1) {
        IndexStaysContiguousIff(b', xs[1..]);
      } else if |xs| > 1 {
        assert !AlwaysContiguous(b', xs[1..]);
      }
    }
  }

  lemma AppendsInSequence(s: State, e: LogEntry)
    requires s.opsLog != [] && s.commitIndex >= -1 && s.opsLog[|s.opsLog| - 1].opNum <= e.opNum && s.opsLog[0].opNum <= e.opNum
    ensures var k := Advances(s.opsLog + [e], s.commitIndex + 1);
            Appended(s, e) == s.(opsLog := s.opsLog + [e], commitPoint := s.commitPoint + k, commitIndex := s.commitIndex + k)
  {
  }

  lemma GapAdvances(e1: LogEntry, e2: LogEntry, e4: LogEntry, e5: LogEntry)
    requires e1.opNum == 1 && e2.opNum == 2 && e4.opNum == 4 && e5.opNum == 5
    ensures Advances([e1, e2], 0) == 2 && Advances([e1, e2, e4], 2) == 0 && Advances([e1, e2, e4, e5], 2) == 1
  {
    var two, three, four := [e1, e2], [e1, e2, e4], [e1, e2, e4, e5];
    assert Advances(two, 2) == 0 && Advances(two, 1) == 1;
    assert Advances(three, 3) == 0;
    assert Advances(four, 4) == 0 && Advances(four, 3) == 1;
  }

  lemma FirstAppend(b: State, e: LogEntry)
    requires b.opsLog == [] && b.commitIndex >= -1
    ensures Appended(b, e) == b.(opsLog := [e])
  {
    assert [] + [e] == [e];
  }

  /** Entries numbered 1, 2, 4 and 5 arrive at an empty backup, which never hears of 3: the index ends on number 4. */
  lemma IndexPassesMissingNumber(b: State, e1: LogEntry, e2: LogEntry, e4: LogEntry, e5: LogEntry)
    requires !b.currentLM && b.opsLog == [] && b.commitIndex == -1
    requires e1.opNum == 1 && e2.opNum == 2 && e4.opNum == 4 && e5.opNum == 5
    ensures var r := DeliverAll(b, [e1, e2, e4, e5]);
            && r.Some? && r.value.opsLog == [e1, e2, e4, e5]
            && r.value.commitIndex == 2 && r.value.opsLog[2] == e4
            && !ContiguousTo(r.value.opsLog, r.value.commitIndex)
  {
    var xs := [e1, e2, e4, e5];
    var b1, b2 := b.(opsLog := [e1]), b.(opsLog := [e1, e2], commitPoint := b.commitPoint + 2, commitIndex := 1);
    var b4 := b2.(opsLog := [e1, e2, e4]);
    var b5 := b2.(opsLog := xs, commitPoint := b.commitPoint + 3, commitIndex := 2);
    FirstAppend(b, e1);
    NextAppends(b1, b2, b4, b5, e1, e2, e4, e5);
    hide Appended, DeliverAll;
    FourArrive(b, b1, b2, b4, b5, xs);
    assert !Pair(xs, 2);
  }

  lemma NextAppends(b1: State, b2: State, b4: State, b5: State, e1: LogEntry, e2: LogEntry, e4: LogEntry, e5: LogEntry)
    requires e1.opNum == 1 && e2.opNum == 2 && e4.opNum == 4 && e5.opNum == 5
    requires b1.opsLog == [e1] && b1.commitIndex == -1
    requires b2 == b1.(opsLog := [e1, e2], commitPoint := b1.commitPoint + 2, commitIndex := 1)
    requires b4 == b2.(opsLog := [e1, e2, e4])
    requires b5 == b4.(opsLog := [e1, e2, e4, e5], commitPoint := b4.commitPoint + 1, commitIndex := 2)
    ensures Appended(b1, e2) == b2 && Appended(b2, e4) == b4 && Appended(b4, e5) == b5
  {
    GapAdvances(e1, e2, e4, e5);
    hide Advances;
    assert [e1] + [e2] == [e1, e2] && [e1, e2] + [e4] == [e1, e2, e4] && [e1, e2, e4] + [e5] == [e1, e2, e4, e5];
    AppendsInSequence(b1, e2);
    AppendsInSequence(b2, e4);
    AppendsInSequence(b4, e5);
    hide Appended;
  }

  lemma FourArrive(b: State, b1: State, b2: State, b4: State, b5: State, xs: seq<LogEntry>)
    requires IsBackup(b) && IsBackup(b1) && IsBackup(b2) && IsBackup(b4) && IsBackup(b5) && |xs| == 4
    requires Appendable(b.opsLog, xs[0]) && Appended(b, xs[0]) == b1
    requires Appendable(b1.opsLog, xs[1]) && Appended(b1, xs[1]) == b2
    requires Appendable(b2.opsLog, xs[2]) && Appended(b2, xs[2]) == b4
    requires Appendable(b4.opsLog, xs[3]) && Appended(b4, xs[3]) == b5
    ensures DeliverAll(b, xs) == Some(b5)
  {
    DeliverIsAppended(b, xs[0]);
    DeliverIsAppended(b1, xs[1]);
    DeliverIsAppended(b2, xs[2]);
    DeliverIsAppended(b4, xs[3]);
    hide Deliver, Appended;
    assert xs[1..][1..] == xs[2..] && xs[2..][1..] == xs[3..] && xs[3..][1..] == [];
    assert DeliverAll(b4, xs[3..]) == DeliverAll(b5, []);
    assert DeliverAll(b2, xs[2..]) == DeliverAll(b4, xs[3..]);
    assert DeliverAll(b1, xs[1..]) == DeliverAll(b2, xs[2..]);
  }

  /** A backup's share of a run is the arrival of the entries that reach it. */
  lemma {:induction false} BackupRunIsArrivals(p: Primary, es: seq<Event>, i: nat, b: State)
    requires p.lm.currentLM && IsBackup(b)
    ensures BackupRun(p, es, i, b) == DeliverAll(b, Received(p, es, i))
    decreases |es|
  {
    if es != [] {
      var one, rest := ReceivedOf(p, es[0], i), Received(Step(p, es[0]), es[1..], i);
      var b' := BackupStep(p, es[0], i, b);
      if one == [] {
        assert [] + rest == rest;
      } else {
        assert (one + rest)[1..] == rest;
      }
      hide Step, Deliver, EntryOf;
      if b'.Some? {
        BackupRunIsArrivals(Step(p, es[0]), es[1..], i, b'.value);
      }
    }
  }

  /** Five requests of which none is fully replicated, the third reaching no backup. */
  function UnluckyRun(key: string, nodeId: string, id: string): seq<Event> {
    var heard := AskWLock(key, 0, 10, nodeId, id, Sent([AppliedThenFailed]));
    [heard, heard, AskWLock(key, 0, 10, nodeId, id, Sent([Lost])), heard, heard]
  }

  lemma FailedLockCounts(p: Primary, e: Event)
    requires p.lm.currentLM && e.AskWLock? && e.version == 0 && e.key !in p.lm.wLocks && !FullyReplicated(e.repl)
    ensures Step(p, e) == p.(lm := p.lm.(currOpNum := p.lm.currOpNum + 1))
    ensures EntryOf(p, e).Some? && EntryOf(p, e).value.opNum == p.lm.currOpNum + 1
  {
  }

  /** The run does leave the backup with a commit index on an entry above a number that never came. */
  lemma RunPassesMissingNumber(p: Primary, b: State, key: string, nodeId: string, id: string)
    requires Genesis(p, b)
    ensures var r := BackupRun(p, UnluckyRun(key, nodeId, id), 0, b);
            && r.Some? && r.value.commitIndex == 2 && |r.value.opsLog| == 4
            && r.value.opsLog[2].opNum == 4 && forall j :: 0 <= j < 4 ==> r.value.opsLog[j].opNum != 3
  {
    var es := UnluckyRun(key, nodeId, id);
    var p1 := Step(p, es[0]);
    var p2 := Step(p1, es[1]);
    var p3 := Step(p2, es[2]);
    var p4 := Step(p3, es[3]);
    assert es[0].repl.replies[0] != Acked && es[2].repl.replies[0] != Acked;
    FailedLockCounts(p, es[0]);
    FailedLockCounts(p1, es[1]);
    FailedLockCounts(p2, es[2]);
    FailedLockCounts(p3, es[3]);
    FailedLockCounts(p4, es[4]);
    var e1, e2, e4, e5 := EntryOf(p, es[0]).value, EntryOf(p1, es[1]).value, EntryOf(p3, es[3]).value, EntryOf(p4, es[4]).value;
    BackupRunIsArrivals(p, es, 0, b);
    UnluckyReceived(p, es, e1, e2, e4, e5);
    IndexPassesMissingNumber(b, e1, e2, e4, e5);
  }

  lemma UnluckyReceived(p: Primary, es: seq<Event>, e1: LogEntry, e2: LogEntry, e4: LogEntry, e5: LogEntry)
    requires p.lm.currentLM && |es| == 5
    requires var p1 := Step(p, es[0]);
             var p2 := Step(p1, es[1]);
             var p3 := Step(p2, es[2]);
             var p4 := Step(p3, es[3]);
             && ReceivedOf(p, es[0], 0) == [e1] && ReceivedOf(p1, es[1], 0) == [e2] && ReceivedOf(p2, es[2], 0) == []
             && ReceivedOf(p3, es[3], 0) == [e4] && ReceivedOf(p4, es[4], 0) == [e5]
    ensures Received(p, es, 0) == [e1, e2, e4, e5]
  {
    hide Step, ReceivedOf;
    assert es[1..][1..] == es[2..] && es[2..][1..] == es[3..] && es[3..][1..] == es[4..] && es[4..][1..] == [];
    var p4 := Step(Step(Step(Step(p, es[0]), es[1]), es[2]), es[3]);
    assert Received(Step(p4, es[4]), [], 0) == [];
    assert Received(p4, es[4..], 0) == [e5];
    assert Received(Step(Step(Step(p, es[0]), es[1]), es[2]), es[3..], 0) == [e4, e5];
    assert Received(Step(Step(p, es[0]), es[1]), es[2..], 0) == [e4, e5];
    assert Received(Step(p, es[0]), es[1..], 0) == [e2, e4, e5];
  }

  // ---------- when the new term's locks are sound ----------

  /** The last change of the key, if it is a WRITE, is above the key's last COMMIT. */
  ghost predicate LastLockAbove(log: seq<LogEntry>, key: string) {
    var change, commit := LastChange(log, key), LastCommit(log, key);
    change.Some? && change.value.op == WRITE ==>
      change.value.version > if commit.Some? then commit.value.version else 0
  }

  ghost predicate LastLocksAbove(log: seq<LogEntry>) {
    forall key {:trigger LastLockAbove(log, key)} :: LastLockAbove(log, key)
  }

  lemma ReplayHeldAboveIff(b: State, log: seq<LogEntry>)
    requires Replay(b.opsLog) == Replay(log)
    ensures HeldAbove(AfterReplay(b)) <==> LastLocksAbove(log)
  {
    var s := AfterReplay(b);
    forall key ensures LastLockAbove(log, key) <==>
      (key in s.wLocks ==> s.wLocks[key].version > Committed(s.versionMap, key)) {
      ReplayIsLastEntries(log, key);
      hide Replay, LastChange, LastCommit;
    }
    hide AfterReplay, LastLockAbove;
  }

  /**
   * A takeover leaves every held lock above its committed version exactly when, in the log
   * it replays, each key whose last change is a WRITE has that WRITE above its last COMMIT.
   */
  lemma TakeOverHeldAboveIff(b: State)
    ensures HeldAbove(AfterReplay(b)) <==> LastLocksAbove(b.opsLog)
  {
    ReplayHeldAboveIff(b, b.opsLog);
  }

  /** The same after a run: exactly when it holds of the entries that reached the backup. */
  lemma RunHandsOverHeldAboveIff(p: Primary, es: seq<Event>, i: nat, b: State)
    requires Genesis(p, b)
    ensures BackupRun(p, es, i, b).Some?
    ensures HeldAbove(AfterReplay(BackupRun(p, es, i, b).value)) <==> LastLocksAbove(Received(p, es, i))
  {
    BackupReplaysReceived(p, es, i, b, []);
    assert [] + Received(p, es, i) == Received(p, es, i);
    ReplayHeldAboveIff(BackupRun(p, es, i, b).value, Received(p, es, i));
  }

  /** Whenever a COMMIT reaches backup i, the primary goes on to apply it. */
  predicate CommitApplied(p: Primary, e: Event, i: nat)
    requires p.lm.currentLM
  {
    e.AskCommit? && EntryOf(p, e).Some? && ReceivedBy(e.repl, i) ==> FullyReplicated(e.repl)
  }

  predicate CommitsApplied(p: Primary, es: seq<Event>, i: nat)
    requires p.lm.currentLM
    decreases |es|
  {
    es == [] || (CommitApplied(p, es[0], i) && CommitsApplied(Step(p, es[0]), es[1..], i))
  }

  /** The backup's log replays to exactly the primary's versions. */
  ghost predicate SameVersions(p: Primary, b: State) {
    Replay(b.opsLog).versionMap == p.lm.versionMap
  }

  lemma StepKeepsSameVersions(p: Primary, e: Event, i: nat, b: State)
    requires p.lm.currentLM && InRange(p.lm) && HeldAbove(p.lm) && Representable(e) && InReplicaSet(e, i)
    requires !(e.AskWLock? && WrapsRound(p.lm, e.key, e.version)) && Follows(p, b)
    requires SameVersions(p, b) && CommitApplied(p, e, i)
    ensures BackupStep(p, e, i, b).Some? && SameVersions(Step(p, e), BackupStep(p, e, i, b).value)
  {
    StepDoes(p, e);
    hide Step, Covers, Deliver, Replay, HeldAbove, InRange;
    if EntryOf(p, e).Some? {
      var x := EntryOf(p, e).value;
      DeliverAppends(b, x, x.opNum);
    }
  }

  lemma {:induction false} RunKeepsSameVersions(p: Primary, es: seq<Event>, i: nat, b: State)
    requires p.lm.currentLM && InRange(p.lm) && HeldAbove(p.lm) && AllRepresentable(es) && AlwaysInReplicaSet(es, i)
    requires NoRequestWraps(p, es) && Follows(p, b) && SameVersions(p, b) && CommitsApplied(p, es, i)
    ensures BackupRun(p, es, i, b).Some? && SameVersions(Run(p, es), BackupRun(p, es, i, b).value)
    decreases |es|
  {
    hide HeldAbove, InRange, Step, BackupStep, WrapsRound, InReplicaSet, Representable, Covers, SortedOpNums, Replay,
      SameVersions, CommitApplied;
    if es != [] {
      StepInRange(p, es[0]);
      StepHeldAboveIff(p, es[0]);
      StepKeepsFollows(p, es[0], i, b);
      StepKeepsSameVersions(p, es[0], i, b);
      RunKeepsSameVersions(Step(p, es[0]), es[1..], i, BackupStep(p, es[0], i, b).value);
    }
  }

  lemma CoveredIsHeldAbove(p: Primary, b: State, clock: int, vn: string, host: string)
    requires Follows(p, b) && SameVersions(p, b)
    ensures HeldAbove(TakeOver(b, clock, vn, host).lm) && InRange(TakeOver(b, clock, vn, host).lm)
  {
    var r := Replay(b.opsLog);
    CoversIsFloor(p.lm.versionMap, b, clock, vn, host);
    var s := TakeOver(b, clock, vn, host).lm;
    hide Replay, OnFloor;
    forall k | k in s.wLocks ensures s.wLocks[k].version > Committed(s.versionMap, k) {
      assert KeyCovered(p.lm.versionMap, r, k);
    }
  }

  /**
   * When every COMMIT that reached the backup was applied by the primary, the backup takes
   * over with the primary's versions and sound locks, and over both terms together no
   * version of a key is committed twice or below an earlier one.
   */
  lemma BothTermsStrictlyIncrease(
    p: Primary, es: seq<Event>, i: nat, b: State, clock: int, vn: string, host: string, later: seq<Event>)
    requires Genesis(p, b) && AllRepresentable(es) && AlwaysInReplicaSet(es, i) && NoRequestWraps(p, es)
    requires CommitsApplied(p, es, i) && AllRepresentable(later) && BackupRun(p, es, i, b).Some?
    requires NoRequestWraps(TakeOver(BackupRun(p, es, i, b).value, clock, vn, host), later)
    ensures var q := TakeOver(BackupRun(p, es, i, b).value, clock, vn, host);
            && HeldAbove(q.lm) && q.lm.versionMap == Run(p, es).lm.versionMap
            && StrictlyIncreasing(Commits(p, es) + Commits(q, later))
  {
    GenesisFollows(p, b);
    RunKeepsFollows(p, es, i, b);
    RunKeepsSameVersions(p, es, i, b);
    var q := TakeOver(BackupRun(p, es, i, b).value, clock, vn, host);
    CoveredIsHeldAbove(Run(p, es), BackupRun(p, es, i, b).value, clock, vn, host);
    NoRequestNoGrantWraps(p, es);
    NoRequestNoGrantWraps(q, later);
    CommitsStrictlyIncrease(p, es);
    CommitsStrictlyIncrease(q, later);
    FailoverNeverRegrants(p, es, i, b, clock, vn, host, later);
    JoinedStrictlyIncrease(Commits(p, es), Commits(q, later));
  }

  lemma JoinedStrictlyIncrease(earlier: seq<Version>, later: seq<Version>)
    requires StrictlyIncreasing(earlier) && StrictlyIncreasing(later) && AllAbove(later, earlier)
    ensures StrictlyIncreasing(earlier + later)
  {
    var all := earlier + later;
    forall i, j | 0 <= i < j < |all| && all[i].key == all[j].key ensures all[i].version < all[j].version {
      if i >= |earlier| {
        assert all[i] == later[i - |earlier|] && all[j] == later[j - |earlier|];
      } else if j >= |earlier| {
        assert all[i] == earlier[i] && all[j] == later[j - |earlier|];
      }
    }
  }

  /** Such a log: a COMMIT that reached the backup alone, then an abort and the same version locked again. */
  lemma ReplayedLockMayBeCommitted(w: LogEntry, c: LogEntry, a: LogEntry, again: LogEntry)
    requires w.op == WRITE && c.op == COMMIT && a.op == ABORT && again.op == WRITE
    requires w.key == c.key == a.key == again.key && w.version == c.version == again.version
    ensures var r := Replay([w, c, a, again]);
            w.key in r.wLocks && r.wLocks[w.key].version == Committed(r.versionMap, w.key)
  {
    hide Replay;
    ReplayAppend([], w);
    ReplayAppend([w], c);
    ReplayAppend([w, c], a);
    ReplayAppend([w, c, a], again);
    assert [] + [w] == [w] && [w] + [c] == [w, c] && [w, c] + [a] == [w, c, a] && [w, c, a] + [again] == [w, c, a, again];
  }

  /** A version locked, committed at the backup alone, aborted and locked again. */
  function RelockingRun(key: string, nodeId: string, id: string, id': string): seq<Event> {
    [AskWLock(key, 0, 10, nodeId, id, Sent([Acked])), AskCommit(key, 1, Sent([AppliedThenFailed])),
     AskAbort(key, 1, Sent([Acked])), AskWLock(key, 0, 10, nodeId, id', Sent([Acked]))]
  }

  /** The step's entry is what the given log entry is about, and gets the next number. */
  ghost predicate Logs(p: Primary, e: Event, op: Op, version: nat) {
    && p.lm.currentLM && EntryOf(p, e).Some?
    && EntryOf(p, e).value.op == op && EntryOf(p, e).value.version == version
    && EntryOf(p, e).value.opNum == p.lm.currOpNum + 1 && ReceivedBy(e.repl, 0)
  }

  lemma RelockingSteps(p: Primary, key: string, nodeId: string, id: string, id': string)
    requires p.lm == State(true, map[], map[], map[], 0, [], 0, -1)
    ensures var es := RelockingRun(key, nodeId, id, id');
            var p1 := Step(p, es[0]);
            var p2 := Step(p1, es[1]);
            var p3 := Step(p2, es[2]);
            && Logs(p, es[0], WRITE, 1) && Logs(p1, es[1], COMMIT, 1) && Logs(p2, es[2], ABORT, 1) && Logs(p3, es[3], WRITE, 1)
            && p1.lm.currOpNum == 1 && p2.lm.currOpNum == 2 && p3.lm.currOpNum == 3
            && EntryOf(p, es[0]).value.key == EntryOf(p1, es[1]).value.key == EntryOf(p2, es[2]).value.key
            && EntryOf(p2, es[2]).value.key == EntryOf(p3, es[3]).value.key == key
  {
    var es := RelockingRun(key, nodeId, id, id');
    var p1 := Step(p, es[0]);
    var p2 := Step(p1, es[1]);
    var p3 := Step(p2, es[2]);
    assert FullyReplicated(es[0].repl) && FullyReplicated(es[2].repl) && es[1].repl.replies[0] != Acked;
    StepDoes(p, es[0]);
    StepDoes(p1, es[1]);
    StepDoes(p2, es[2]);
    hide Step;
    assert p1.lm.versionMap == map[] && key in p1.lm.wLocks && p1.lm.wLocks[key].version == 1;
    assert p2.lm.versionMap == map[] && p2.lm.wLocks == p1.lm.wLocks;
    assert p3.lm.versionMap == map[] && key !in p3.lm.wLocks;
  }

  lemma ReceivedFirst(p: Primary, e: Event, rest: seq<Event>, op: Op, version: nat)
    requires Logs(p, e, op, version)
    ensures Received(p, [e] + rest, 0) == [EntryOf(p, e).value] + Received(Step(p, e), rest, 0)
  {
    assert ([e] + rest)[1..] == rest;
  }

  lemma RelockingLog(p: Primary, key: string, nodeId: string, id: string, id': string)
    requires p.lm == State(true, map[], map[], map[], 0, [], 0, -1)
    ensures var log := Received(p, RelockingRun(key, nodeId, id, id'), 0);
            && |log| == 4 && log == [log[0], log[1], log[2], log[3]]
            && log[0].op == WRITE && log[1].op == COMMIT && log[2].op == ABORT && log[3].op == WRITE
            && log[0].key == log[1].key == log[2].key == log[3].key == key
            && log[0].version == log[1].version == log[3].version
  {
    var es := RelockingRun(key, nodeId, id, id');
    var p1 := Step(p, es[0]);
    var p2 := Step(p1, es[1]);
    var p3 := Step(p2, es[2]);
    RelockingSteps(p, key, nodeId, id, id');
    assert es == [es[0]] + ([es[1]] + ([es[2]] + ([es[3]] + [])));
    assert Received(Step(p3, es[3]), [], 0) == [];
    hide RelockingRun, Step, EntryOf, ReceivedBy, Received, ReceivedOf;
    ReceivedFirst(p, es[0], [es[1]] + ([es[2]] + ([es[3]] + [])), WRITE, 1);
    ReceivedFirst(p1, es[1], [es[2]] + ([es[3]] + []), COMMIT, 1);
    ReceivedFirst(p2, es[2], [es[3]] + [], ABORT, 1);
    ReceivedFirst(p3, es[3], [], WRITE, 1);
  }

  /** The run happens: from the start, it leaves the backup to take over with a lock that is not above its version. */
  lemma TakeOverMayHoldCommitted(p: Primary, b: State, key: string, nodeId: string, id: string, id': string)
    requires Genesis(p, b)
    ensures var r := BackupRun(p, RelockingRun(key, nodeId, id, id'), 0, b);
            r.Some? && !HeldAbove(AfterReplay(r.value))
  {
    var es := RelockingRun(key, nodeId, id, id');
    BackupReplaysReceived(p, es, 0, b, []);
    RelockingLog(p, key, nodeId, id, id');
    hide RelockingRun, Received, HeldAbove, Replay, AfterReplay;
    var log := Received(p, es, 0);
    assert [] + log == log;
    ReplayedLockMayBeCommitted(log[0], log[1], log[2], log[3]);
    NotHeldAbove(BackupRun(p, es, 0, b).value, key);
  }

  lemma NotHeldAbove(b: State, key: string)
    requires var r := Replay(b.opsLog);
             key in r.wLocks && r.wLocks[key].version == Committed(r.versionMap, key)
    ensures !HeldAbove(AfterReplay(b))
  {
  }
}
