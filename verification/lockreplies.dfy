/**
 * What the lock manager's replies are worth: which manager answers what, when a refusal may
 * be retried, and how a client that only hears the replies knows what is held and committed.
 */
module LockReplies {
  import opened Wrappers
  import opened LockManager
  import opened LockRuns
  import opened LogReplay

  // ---------- managers that are not asked as the primary ----------

  /** A client that asks a manager other than the primary is told to try again, and nothing changes. */
  lemma OthersRefuseClients(s: State, key: string, version: nat, timeout: nat, nodeId: string, addr: string,
                            now: int, lockId: string, vn: string, host: string, repl: Replication)
    requires !s.currentLM
    ensures WLock(s, key, version, timeout, nodeId, None, now, lockId, vn, host, repl) == (s, Refused(0, true))
    ensures Commit(s, key, version, None, vn, host, repl) == (s, Failed(true), map[])
    ensures Abort(s, key, version, None, vn, host, repl) == (s, Failed(true))
    ensures RLock(s, key, nodeId, addr, None, lockId, vn, host, repl) == (s, NotRegistered(true))
  {
  }

  /** Only the log took the entry: it arrived last, whatever its number, and nothing was applied. */
  ghost predicate OnlyLogged(s: State, e: LogEntry, t: State) {
    && SameContents(t.opsLog, s.opsLog + [e])
    && t == s.(opsLog := t.opsLog, commitPoint := t.commitPoint, commitIndex := t.commitIndex)
  }

  /** A backup logs whatever the primary forwards, applies none of it and reports success under the entry's lock id. */
  lemma BackupsOnlyLog(s: State, e: LogEntry, version: nat, timeout: nat, nodeId: string, addr: string,
                       now: int, lockId: string, vn: string, host: string, repl: Replication)
    requires !s.currentLM && Appendable(s.opsLog, e) && s.commitIndex >= -1 && SortedOpNums(s.opsLog)
    ensures var (t, r) := WLock(s, e.key, version, timeout, nodeId, Some(e), now, lockId, vn, host, repl);
            OnlyLogged(s, e, t) && r == Granted(e.lockId, version, timeout)
    ensures var (t, r, called) := Commit(s, e.key, version, Some(e), vn, host, repl);
            OnlyLogged(s, e, t) && r == Done && called == map[]
    ensures var (t, r) := Abort(s, e.key, version, Some(e), vn, host, repl);
            OnlyLogged(s, e, t) && r == Done
    ensures var (t, r) := RLock(s, e.key, nodeId, addr, Some(e), lockId, vn, host, repl);
            OnlyLogged(s, e, t) && r == Registered(e.lockId, e.version)
  {
    AppendSortsNumbersOnly(s, e);
    AppendedOnlyLogs(s, e);
    hide Appended, SameContents, SortedOpNums;
  }

  lemma AppendedOnlyLogs(s: State, e: LogEntry)
    requires Appendable(s.opsLog, e) && s.commitIndex >= -1
    ensures var t := Appended(s, e);
            t == s.(opsLog := t.opsLog, commitPoint := t.commitPoint, commitIndex := t.commitIndex)
  {
  }

  /** A primary takes no entries: it reports success and nothing changes. */
  lemma PrimaryTakesNoEntry(s: State, e: LogEntry, key: string, version: nat, timeout: nat, nodeId: string, addr: string,
                            now: int, lockId: string, vn: string, host: string, repl: Replication)
    requires s.currentLM
    ensures WLock(s, key, version, timeout, nodeId, Some(e), now, lockId, vn, host, repl) == (s, Granted("", 0, 0))
    ensures Commit(s, key, version, Some(e), vn, host, repl) == (s, Done, map[])
    ensures Abort(s, key, version, Some(e), vn, host, repl) == (s, Done)
    ensures RLock(s, key, nodeId, addr, Some(e), lockId, vn, host, repl) == (s, Registered("", 0))
  {
  }

  // ---------- the primary's replies ----------

  /** A refused request changes nothing but the operation count. */
  ghost predicate OnlyCounted(s: State, t: State) {
    t == s.(currOpNum := t.currOpNum) && s.currOpNum <= t.currOpNum <= s.currOpNum + 1
  }

  /** The version asked for may be locked: it is above the committed one, or stands for the next. */
  predicate VersionOpen(s: State, key: string, version: nat) {
    version == 0 || version > Committed(s.versionMap, key)
  }

  /**
   * A write lock is granted iff it is held afterwards and was not before, and then with the
   * terms of the reply. Only a failed replication may be retried; any other refusal hands
   * on the version that is held or committed.
   */
  lemma WLockReplies(p: Primary, e: Event)
    requires p.lm.currentLM && e.AskWLock?
    ensures var s, (t, r) := p.lm, WLockAt(p, e);
            && (r.Granted? <==> e.key !in s.wLocks && e.key in t.wLocks)
            && (r.Granted? ==>
                  && r.lockId == e.lockId && r.timeout == e.timeout
                  && r.version == (if e.version == 0 then (Committed(s.versionMap, e.key) + 1) % 0x1_0000_0000_0000_0000 else e.version)
                  && t.wLocks == s.wLocks[e.key := WLockEntry(e.nodeId, r.lockId, r.version, p.clock + r.timeout * 1_000_000_000)])
            && (r.Refused? ==> OnlyCounted(s, t))
            && (r.Refused? && r.retry <==> e.key !in s.wLocks && VersionOpen(s, e.key, e.version) && !FullyReplicated(e.repl))
            && (r.Refused? && !r.retry ==>
                  r.version == if e.key in s.wLocks then s.wLocks[e.key].version else Committed(s.versionMap, e.key))
            && t.versionMap == s.versionMap && t.rLocks == s.rLocks
  {
  }

  /** The lock that a commit or abort names is held at its version. */
  predicate HeldAt(s: State, key: string, version: nat) {
    key in s.wLocks && s.wLocks[key].version == version
  }

  /**
   * A commit is acknowledged iff it released its lock, and then the key has that version
   * and its readers are called back. It may be retried iff only the replication failed.
   */
  lemma CommitReplies(p: Primary, e: Event)
    requires p.lm.currentLM && e.AskCommit?
    ensures var s, (t, r, called) := p.lm, CommitAt(p, e);
            && (r == Done <==> e.key in s.wLocks && e.key !in t.wLocks)
            && (r == Done ==>
                  && HeldAt(s, e.key, e.version) && t.wLocks == s.wLocks - {e.key}
                  && t.versionMap == s.versionMap[e.key := e.version]
                  && t.rLocks == (if e.version == 1 then s.rLocks else s.rLocks - {e.key})
                  && called == (if e.version != 1 && e.key in s.rLocks then s.rLocks[e.key] else map[]))
            && (r != Done ==> OnlyCounted(s, t) && called == map[])
            && (r == Failed(true) <==> HeldAt(s, e.key, e.version) && !FullyReplicated(e.repl))
            && (r == Failed(false) <==> !HeldAt(s, e.key, e.version))
  {
  }

  function AbortAt(p: Primary, e: Event): (State, CommitReply)
    requires p.lm.currentLM && e.AskAbort?
  {
    Abort(p.lm, e.key, e.version, None, p.vn, p.host, e.repl)
  }

  /** An abort is acknowledged iff it released its lock, with versions and readers as before. */
  lemma AbortReplies(p: Primary, e: Event)
    requires p.lm.currentLM && e.AskAbort?
    ensures var s, (t, r) := p.lm, AbortAt(p, e);
            && (r == Done <==> e.key in s.wLocks && e.key !in t.wLocks)
            && (r == Done ==> HeldAt(s, e.key, e.version) && t.wLocks == s.wLocks - {e.key})
            && t.versionMap == s.versionMap && t.rLocks == s.rLocks
            && (r != Done ==> OnlyCounted(s, t))
            && (r == Failed(true) <==> HeldAt(s, e.key, e.version) && !FullyReplicated(e.repl))
            && (r == Failed(false) <==> !HeldAt(s, e.key, e.version))
  {
  }

  function RLockAt(p: Primary, e: Event): (State, RLockReply)
    requires p.lm.currentLM && e.AskRLock?
  {
    RLock(p.lm, e.key, e.nodeId, e.addr, None, e.lockId, p.vn, p.host, e.repl)
  }

  /**
   * A reader is told the committed version iff there is one and it was registered for it
   * everywhere; no other registration, version or write lock moves.
   */
  lemma RLockReplies(p: Primary, e: Event)
    requires p.lm.currentLM && e.AskRLock?
    ensures var s, (t, r) := p.lm, RLockAt(p, e);
            && t.versionMap == s.versionMap && t.wLocks == s.wLocks
            && (r.Registered? <==> Committed(s.versionMap, e.key) != 0 && FullyReplicated(e.repl))
            && (r.Registered? ==> r == Registered(e.lockId, Committed(s.versionMap, e.key)))
            && (r == NotRegistered(false) <==> Committed(s.versionMap, e.key) == 0)
            && (r == NotRegistered(false) ==> t == s)
            && (forall k, n {:trigger Reader(t.rLocks, k, n)} ::
                  Reader(t.rLocks, k, n) == if r.Registered? && k == e.key && n == e.nodeId then Some(ReadEntry(e.lockId, e.addr))
                                     else Reader(s.rLocks, k, n))
  {
  }

  /** What a log entry says of the request it stands for. */
  ghost predicate Records(p: Primary, e: Event, x: LogEntry)
    requires p.lm.currentLM
  {
    && !e.Elapse? && !e.Ticker? && x.key == e.key && x.opNum == p.lm.currOpNum + 1 && x.vn == p.vn && x.host == p.host
    && match e
       case AskWLock(_, _, _, _, lockId, _) =>
         && x.op == WRITE && x.lockId == lockId && WLockAt(p, e).1 == Granted(lockId, x.version, e.timeout)
         && x.timeout == p.clock + e.timeout * 1_000_000_000
       case AskCommit(_, version, _) => x.op == COMMIT && x.version == version
       case AskAbort(_, version, _) => x.op == ABORT && x.version == version
       case AskRLock(_, _, _, lockId, _) => x.op == READ && x.lockId == lockId
  }

  /** A request that is acknowledged adds one entry to the log, which records it. */
  lemma AcknowledgedIsLogged(p: Primary, e: Event)
    requires p.lm.currentLM
    requires || (e.AskWLock? && WLockAt(p, e).1.Granted?) || (e.AskCommit? && CommitAt(p, e).1 == Done)
             || (e.AskAbort? && AbortAt(p, e).1 == Done) || (e.AskRLock? && RLockAt(p, e).1.Registered?)
    ensures var log := Step(p, e).lm.opsLog;
            |log| == |p.lm.opsLog| + 1 && log[..|p.lm.opsLog|] == p.lm.opsLog && Records(p, e, log[|p.lm.opsLog|])
  {
  }

  // ---------- what the replies tell over a run ----------

  /** A client is told that the key's lock is released. */
  predicate SaysReleased(p: Primary, e: Event, key: string)
    requires p.lm.currentLM
  {
    || (e.AskCommit? && e.key == key && CommitAt(p, e).1 == Done)
    || (e.AskAbort? && e.key == key && AbortAt(p, e).1 == Done)
  }

  /** A client is told that it holds the key. */
  predicate SaysGranted(p: Primary, e: Event, key: string)
    requires p.lm.currentLM
  {
    e.AskWLock? && e.key == key && WLockAt(p, e).1.Granted?
  }

  /** The key's lock and version by the replies: what one event makes of what was known before. */
  datatype Known = Known(lock: Option<WLockEntry>, version: Option<nat>)

  function Told(p: Primary, e: Event, key: string, known: Known): Known
    requires p.lm.currentLM
  {
    if SaysGranted(p, e, key) then
      var r := WLockAt(p, e).1;
      known.(lock := Some(WLockEntry(e.nodeId, r.lockId, r.version, p.clock + r.timeout * 1_000_000_000)))
    else if SaysReleased(p, e, key) then
      Known(None, if e.AskCommit? then Some(e.version) else known.version)
    else if e.Ticker? && known.lock.Some? && known.lock.value.timeout <= p.clock then known.(lock := None)
    else known
  }

  function ToldOver(p: Primary, es: seq<Event>, key: string, known: Known): Known
    requires p.lm.currentLM
    decreases |es|
  {
    if es == [] then known else ToldOver(Step(p, es[0]), es[1..], key, Told(p, es[0], key, known))
  }

  function KnownOf(p: Primary, key: string): Known {
    Known(Lookup(p.lm.wLocks, key), Lookup(p.lm.versionMap, key))
  }

  lemma StepIsTold(p: Primary, e: Event, key: string)
    requires p.lm.currentLM
    ensures KnownOf(Step(p, e), key) == Told(p, e, key, KnownOf(p, key))
  {
    match e {
      case AskWLock(_, _, _, _, _, _) =>
        WLockReplies(p, e);
      case AskCommit(_, _, _) =>
        CommitReplies(p, e);
      case AskAbort(_, _, _) =>
        AbortReplies(p, e);
      case AskRLock(_, _, _, _, _) =>
        RLockReplies(p, e);
      case _ =>
    }
    hide WLockAt, CommitAt, AbortAt, RLockAt, Committed, VersionOpen, HeldAt, FullyReplicated, Reader;
  }

  /** After any run, the lock held on a key and its version are those that the replies and the clock told. */
  lemma {:induction false} RepliesTellAll(p: Primary, es: seq<Event>, key: string)
    requires p.lm.currentLM
    ensures KnownOf(Run(p, es), key) == ToldOver(p, es, key, KnownOf(p, key))
    decreases |es|
  {
    if es != [] {
      StepIsTold(p, es[0], key);
      hide Step, KnownOf, Told;
      RepliesTellAll(Step(p, es[0]), es[1..], key);
    }
  }

  // ---------- a lock lasts until its timeout ----------

  ghost predicate NeverReleased(p: Primary, es: seq<Event>, key: string)
    requires p.lm.currentLM
    decreases |es|
  {
    es == [] || (!SaysReleased(p, es[0], key) && NeverReleased(Step(p, es[0]), es[1..], key))
  }

  lemma {:induction false} ClockNeverGoesBack(p: Primary, es: seq<Event>)
    requires p.lm.currentLM
    ensures Run(p, es).clock >= p.clock
    decreases |es|
  {
    if es != [] {
      StepDoes(p, es[0]);
      hide Step;
      ClockNeverGoesBack(Step(p, es[0]), es[1..]);
    }
  }

  lemma StepKeepsLock(p: Primary, e: Event, key: string)
    requires p.lm.currentLM && key in p.lm.wLocks && !SaysReleased(p, e, key) && p.clock < p.lm.wLocks[key].timeout
    ensures !SaysGranted(p, e, key)
    ensures Lookup(Step(p, e).lm.wLocks, key) == Some(p.lm.wLocks[key])
  {
    StepIsTold(p, e, key);
    if e.AskWLock? {
      WLockReplies(p, e);
    }
    hide Step, WLockAt, SaysReleased;
  }

  /**
   * Mutual exclusion: whatever is asked meanwhile, a lock not released stays with its
   * holder until its timeout, and nobody else is granted the key.
   */
  lemma {:induction false} LockLasts(p: Primary, es: seq<Event>, key: string)
    requires p.lm.currentLM && key in p.lm.wLocks && NeverReleased(p, es, key)
    requires Run(p, es).clock < p.lm.wLocks[key].timeout
    ensures Lookup(Run(p, es).lm.wLocks, key) == Some(p.lm.wLocks[key])
    ensures forall i :: 0 <= i < |Grants(p, es)| ==> Grants(p, es)[i].key != key
    decreases |es|
  {
    if es != [] {
      ClockNeverGoesBack(p, es);
      StepKeepsLock(p, es[0], key);
      hide Step, SaysReleased, WLockAt;
      LockLasts(Step(p, es[0]), es[1..], key);
    }
  }

  /** The first tick at or after its timeout ends it, and no tick ends another lock. */
  lemma TickEndsTimedOut(p: Primary, key: string)
    requires p.lm.currentLM
    ensures Lookup(Step(p, Ticker).lm.wLocks, key) ==
            if key in p.lm.wLocks && p.lm.wLocks[key].timeout > p.clock then Some(p.lm.wLocks[key]) else None
  {
  }

  /** A granted lock is not past its timeout for as many seconds as were asked for. */
  lemma GrantLasts(p: Primary, e: Event, es: seq<Event>)
    requires p.lm.currentLM && e.AskWLock? && WLockAt(p, e).1.Granted?
    requires NeverReleased(Step(p, e), es, e.key) && Run(Step(p, e), es).clock < p.clock + e.timeout * 1_000_000_000
    ensures e.key in Run(Step(p, e), es).lm.wLocks && Run(Step(p, e), es).lm.wLocks[e.key].lockId == e.lockId
  {
    WLockReplies(p, e);
    hide WLockAt;
    LockLasts(Step(p, e), es, e.key);
  }

  // ---------- the operation count starts again with a term ----------

  /** The first operation that a new primary logs is numbered 1, whatever its log holds. */
  lemma TermCountsFromOne(s: State, clock: int, vn: string, host: string, e: Event)
    ensures var p := TakeOver(s, clock, vn, host);
            EntryOf(p, e).Some? ==> EntryOf(p, e).value.opNum == 1
  {
  }

  /** So a backup whose log starts above 1 takes no term whose first entry reaches it. */
  lemma LaterLogPanics(s: State, clock: int, vn: string, host: string, e: Event, b: State)
    requires b.opsLog != [] && b.opsLog[0].opNum > 1 && EntryOf(TakeOver(s, clock, vn, host), e).Some?
    ensures !Appendable(b.opsLog, EntryOf(TakeOver(s, clock, vn, host), e).value)
  {
    TermCountsFromOne(s, clock, vn, host, e);
  }
}
