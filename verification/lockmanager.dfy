/**
 * lm_server.go and lm_utils.go: the lock manager's handlers, its operation log and the
 * replay of that log. Each handler is one atomic step; the clock, fresh lock ids and the
 * backups' replies are parameters.
 */
module LockManager {
  import opened Wrappers

  /** The range of Go's 64-bit uint, in which version arithmetic wraps. */
  const UINT: nat := 0x1_0000_0000_0000_0000

  /** One second of the clock. */
  const SECOND: nat := 1_000_000_000

  datatype WLockEntry = WLockEntry(nodeId: string, lockId: string, version: nat, timeout: int)

  /** The lock id and address under which a node may cache a key's version. */
  datatype ReadEntry = ReadEntry(lockId: string, addr: string)

  type CopySet = map<string, ReadEntry>

  datatype Op = READ | WRITE | COMMIT | ABORT

  datatype LogEntry = LogEntry(
    opNum: nat, op: Op, key: string, version: nat, timeout: int, lockId: string, commitPoint: nat, vn: string, host: string)

  /** The state of an LManager. */
  datatype State = State(
    currentLM: bool,
    versionMap: map<string, nat>,
    rLocks: map<string, CopySet>,
    wLocks: map<string, WLockEntry>,
    currOpNum: nat,
    opsLog: seq<LogEntry>,
    commitPoint: nat,
    commitIndex: int)

  /** What becomes of one replication message: a backup may apply it and still be seen to fail. */
  datatype Reply = Acked | AppliedThenFailed | Lost

  /** The backups could not be looked up, or were asked one after the other until one failed. */
  datatype Replication = LookupFailed | Sent(replies: seq<Reply>)

  datatype WLockReply = Granted(lockId: string, version: nat, timeout: nat) | Refused(version: nat, retry: bool)

  datatype RLockReply = Registered(lockId: string, version: nat) | NotRegistered(retry: bool)

  datatype CommitReply = Done | Failed(retry: bool)

  predicate FullyReplicated(r: Replication) {
    r.Sent? && forall i :: 0 <= i < |r.replies| ==> r.replies[i] == Acked
  }

  /** Backup i appends the entry: every backup before it acknowledged, and its own message arrived. */
  predicate ReceivedBy(r: Replication, i: nat) {
    && r.Sent? && i < |r.replies| && r.replies[i] != Lost
    && forall j :: 0 <= j < i ==> r.replies[j] == Acked
  }

  /** The next backup is called only once this one acknowledged: those that append are the first ones, and all of them if it succeeds. */
  lemma BackupsInTurn(r: Replication, i: nat)
    ensures ReceivedBy(r, i) ==> r != LookupFailed && i < |r.replies|
    ensures ReceivedBy(r, i + 1) ==> ReceivedBy(r, i)
    ensures r.Sent? && i < |r.replies| ==>
      (ReceivedBy(r, i) <==> r.replies[i] != Lost && (i == 0 || (ReceivedBy(r, i - 1) && r.replies[i - 1] == Acked)))
    ensures FullyReplicated(r) <==>
      r != LookupFailed && forall j: nat {:trigger ReceivedBy(r, j)} :: j < |r.replies| ==> ReceivedBy(r, j) && r.replies[j] == Acked
  {
    if r.Sent? && forall j: nat {:trigger ReceivedBy(r, j)} :: j < |r.replies| ==> ReceivedBy(r, j) && r.replies[j] == Acked {
      forall k | 0 <= k < |r.replies| ensures r.replies[k] == Acked {
        assert ReceivedBy(r, k);
      }
    }
  }

  /** The committed version of a key, 0 when there is none. */
  function Committed(versionMap: map<string, nat>, key: string): nat {
    if key in versionMap then versionMap[key] else 0
  }

  // ---------- the log ----------

  /** Swaps the operation numbers of slot i and the slot below. */
  function SwapOpNums(log: seq<LogEntry>, i: nat): (r: seq<LogEntry>)
    requires 0 < i < |log|
    ensures |r| == |log|
  {
    log[i := log[i].(opNum := log[i - 1].opNum)][i - 1 := log[i - 1].(opNum := log[i].opNum)]
  }

  /** `appendToLog`: the new entry's number sinks below larger ones; everything else stays where it arrived. */
  function SinkOpNum(log: seq<LogEntry>, i: nat): (r: seq<LogEntry>)
    requires i < |log| && log[0].opNum <= log[i].opNum
    ensures |r| == |log|
    decreases i
  {
    if i > 0 && log[i].opNum < log[i - 1].opNum then SinkOpNum(SwapOpNums(log, i), i - 1) else log
  }

  /** How far the commit point of `appendToLog` moves: once for each adjacent pair of consecutive numbers. */
  function Advances(log: seq<LogEntry>, i: nat): nat
    decreases |log| - i
  {
    if i >= |log| then 0
    else (if i == 0 || log[i].opNum == log[i - 1].opNum + 1 then 1 else 0) + Advances(log, i + 1)
  }

  /** `appendToLog` indexes below the log when the number is smaller than all it holds. */
  predicate Appendable(log: seq<LogEntry>, e: LogEntry) {
    log == [] || log[0].opNum <= e.opNum
  }

  function Appended(s: State, e: LogEntry): State
    requires Appendable(s.opsLog, e) && s.commitIndex >= -1
  {
    var log := s.opsLog + [e];
    if |log| == 1 then s.(opsLog := log)
    else
      var log' := SinkOpNum(log, |log| - 1);
      var k := Advances(log', s.commitIndex + 1);
      s.(opsLog := log', commitPoint := s.commitPoint + k, commitIndex := s.commitIndex + k)
  }

  /** What a replay rebuilds. */
  datatype Replayed = Replayed(versionMap: map<string, nat>, wLocks: map<string, WLockEntry>, rLocks: map<string, CopySet>)

  function ReplayOne(r: Replayed, e: LogEntry): Replayed {
    match e.op
    case WRITE => r.(wLocks := r.wLocks[e.key := WLockEntry(e.vn, e.lockId, e.version, e.timeout)])
    case READ =>
      var copySet := if e.key in r.rLocks then r.rLocks[e.key] else map[];
      r.(rLocks := r.rLocks[e.key := copySet[e.vn := ReadEntry(e.lockId, e.host)]])
    case COMMIT => r.(versionMap := r.versionMap[e.key := e.version], wLocks := r.wLocks - {e.key})
    case ABORT => r.(wLocks := r.wLocks - {e.key})
  }

  /** The state a log replays to, from nothing. */
  function Replay(log: seq<LogEntry>): Replayed {
    if log == [] then Replayed(map[], map[], map[])
    else ReplayOne(Replay(log[..|log| - 1]), log[|log| - 1])
  }

  /** `ReplayLog`, which also restarts the operation count. */
  function AfterReplay(s: State): State {
    var r := Replay(s.opsLog);
    s.(versionMap := r.versionMap, wLocks := r.wLocks, rLocks := r.rLocks, currOpNum := 0)
  }

  // ---------- the handlers ----------

  /** The version `createWLock` settles on: 0 asks for the next one, with the wrap of uint. */
  function VersionToLock(versionMap: map<string, nat>, key: string, version: nat): Option<nat> {
    if version > Committed(versionMap, key) then Some(version)
    else if version == 0 then Some((Committed(versionMap, key) + 1) % UINT)
    else None
  }

  /** `createWLock`. */
  function WLock(s: State, key: string, version: nat, timeout: nat, nodeId: string, incoming: Option<LogEntry>,
                 now: int, lockId: string, vn: string, host: string, repl: Replication): (State, WLockReply)
    requires !s.currentLM && incoming.Some? ==> Appendable(s.opsLog, incoming.value) && s.commitIndex >= -1
  {
    if s.currentLM && incoming.Some? then (s, Granted("", 0, 0))
    else if !s.currentLM then
      if incoming.None? then (s, Refused(0, true))
      else (Appended(s, incoming.value), Granted(incoming.value.lockId, version, timeout))
    else if key in s.wLocks then (s, Refused(s.wLocks[key].version, false))
    else if VersionToLock(s.versionMap, key, version).None? then (s, Refused(Committed(s.versionMap, key), false))
    else
      var v := VersionToLock(s.versionMap, key, version).value;
      var t := now + timeout * SECOND;
      var e := LogEntry(s.currOpNum + 1, WRITE, key, v, t, lockId, s.commitPoint, vn, host);
      if FullyReplicated(repl) then
        (s.(currOpNum := s.currOpNum + 1, opsLog := s.opsLog + [e], wLocks := s.wLocks[key := WLockEntry(nodeId, lockId, v, t)]),
         Granted(lockId, v, timeout))
      else (s.(currOpNum := s.currOpNum + 1), Refused(0, true))
  }

  /** `commitWLock`, with the read locks it invalidates. */
  function Commit(s: State, key: string, version: nat, incoming: Option<LogEntry>, vn: string, host: string, repl: Replication)
    : (State, CommitReply, CopySet)
    requires !s.currentLM && incoming.Some? ==> Appendable(s.opsLog, incoming.value) && s.commitIndex >= -1
  {
    if s.currentLM && incoming.Some? then (s, Done, map[])
    else if !s.currentLM then
      if incoming.None? then (s, Failed(true), map[]) else (Appended(s, incoming.value), Done, map[])
    else if key !in s.wLocks || s.wLocks[key].version != version then (s, Failed(false), map[])
    else
      var e := LogEntry(s.currOpNum + 1, COMMIT, key, version, 0, "", s.commitPoint, vn, host);
      if FullyReplicated(repl) then
        (s.(currOpNum := s.currOpNum + 1, opsLog := s.opsLog + [e],
            versionMap := s.versionMap[key := version], wLocks := s.wLocks - {key},
            rLocks := if version == 1 then s.rLocks else s.rLocks - {key}),
         Done,
         if version != 1 && key in s.rLocks then s.rLocks[key] else map[])
      else (s.(currOpNum := s.currOpNum + 1), Failed(true), map[])
  }

  /** `abortWLock`. */
  function Abort(s: State, key: string, version: nat, incoming: Option<LogEntry>, vn: string, host: string, repl: Replication)
    : (State, CommitReply)
    requires !s.currentLM && incoming.Some? ==> Appendable(s.opsLog, incoming.value) && s.commitIndex >= -1
  {
    if s.currentLM && incoming.Some? then (s, Done)
    else if !s.currentLM then
      if incoming.None? then (s, Failed(true)) else (Appended(s, incoming.value), Done)
    else if key !in s.wLocks || s.wLocks[key].version != version then (s, Failed(false))
    else
      var e := LogEntry(s.currOpNum + 1, ABORT, key, version, 0, "", s.commitPoint, vn, host);
      if FullyReplicated(repl) then
        (s.(currOpNum := s.currOpNum + 1, opsLog := s.opsLog + [e], wLocks := s.wLocks - {key}), Done)
      else (s.(currOpNum := s.currOpNum + 1), Failed(true))
  }

  /** `createRLock`; a failed replication leaves its READ entry in the log. */
  function RLock(s: State, key: string, nodeId: string, addr: string, incoming: Option<LogEntry>,
                 lockId: string, vn: string, host: string, repl: Replication): (State, RLockReply)
    requires !s.currentLM && incoming.Some? ==> Appendable(s.opsLog, incoming.value) && s.commitIndex >= -1
  {
    if s.currentLM && incoming.Some? then (s, Registered("", 0))
    else if !s.currentLM then
      if incoming.None? then (s, NotRegistered(true))
      else (Appended(s, incoming.value), Registered(incoming.value.lockId, incoming.value.version))
    else if Committed(s.versionMap, key) == 0 then (s, NotRegistered(false))
    else
      var e := LogEntry(s.currOpNum + 1, READ, key, 0, 0, lockId, s.commitPoint, vn, host);
      var logged := s.(currOpNum := s.currOpNum + 1, opsLog := s.opsLog + [e]);
      if FullyReplicated(repl) then
        var copySet := if key in s.rLocks then s.rLocks[key] else map[];
        (logged.(rLocks := s.rLocks[key := copySet[nodeId := ReadEntry(lockId, addr)]]),
         Registered(lockId, s.versionMap[key]))
      else (logged, NotRegistered(true))
  }

  /** The body of the expiry ticker. */
  function Expire(s: State, now: int): State {
    s.(wLocks := map k | k in s.wLocks && s.wLocks[k].timeout > now :: s.wLocks[k])
  }

  class LManager {
    const vn: string
    const host: string
    var currentLM: bool
    var versionMap: map<string, nat>
    var rLocks: map<string, CopySet>
    var wLocks: map<string, WLockEntry>
    var currOpNum: nat
    var opsLog: seq<LogEntry>
    var commitPoint: nat
    var commitIndex: int

    ghost function Value(): State
      reads this
    {
      State(currentLM, versionMap, rLocks, wLocks, currOpNum, opsLog, commitPoint, commitIndex)
    }

    /** An LManager as `Ring.init` sets it up. */
    constructor (vn: string, host: string)
      ensures this.vn == vn && this.host == host
      ensures Value() == State(false, map[], map[], map[], 0, [], 0, -1)
    {
      this.vn, this.host := vn, host;
      currentLM := false;
      versionMap, rLocks, wLocks := map[], map[], map[];
      currOpNum, opsLog, commitPoint, commitIndex := 0, [], 0, -1;
    }

    /** The first loop of `appendToLog`: the last entry's number sinks into place. */
    method SinkLast()
      requires |opsLog| > 1 && opsLog[0].opNum <= opsLog[|opsLog| - 1].opNum
      modifies `opsLog
      ensures opsLog == SinkOpNum(old(opsLog), |old(opsLog)| - 1)
    {
      var i := |opsLog| - 1;
      while i > 0 && opsLog[i].opNum < opsLog[i - 1].opNum
        invariant 0 <= i < |opsLog|
        invariant opsLog[0].opNum <= opsLog[i].opNum
        invariant SinkOpNum(opsLog, i) == SinkOpNum(old(opsLog), |old(opsLog)| - 1)
      {
        opsLog := SwapOpNums(opsLog, i);
        i := i - 1;
      }
    }

    /** The second loop of `appendToLog`. */
    method AdvanceCommitPoint()
      requires commitIndex >= -1
      modifies `commitPoint, `commitIndex
      ensures commitPoint == old(commitPoint) + Advances(opsLog, old(commitIndex) + 1)
      ensures commitIndex == old(commitIndex) + Advances(opsLog, old(commitIndex) + 1)
    {
      var i := commitIndex + 1;
      while i <= |opsLog| - 1
        invariant 0 <= i
        invariant commitPoint + Advances(opsLog, i) == old(commitPoint) + Advances(opsLog, old(commitIndex) + 1)
        invariant commitIndex + Advances(opsLog, i) == old(commitIndex) + Advances(opsLog, old(commitIndex) + 1)
      {
        if i == 0 || opsLog[i].opNum == opsLog[i - 1].opNum + 1 {
          commitPoint := commitPoint + 1;
          commitIndex := commitIndex + 1;
        }
        i := i + 1;
      }
    }

    /** `appendToLog`. */
    method AppendToLog(entry: LogEntry)
      requires Appendable(opsLog, entry) && commitIndex >= -1
      modifies this
      ensures Value() == Appended(old(Value()), entry)
    {
      opsLog := opsLog + [entry];
      if |opsLog| > 1 {
        SinkLast();
        AdvanceCommitPoint();
      }
    }

    /** Logs an operation and sends it to the backups one after the other. */
    method LogAndReplicate(entry: LogEntry, repl: Replication) returns (ok: bool)
      modifies this
      ensures Value() == old(Value()).(opsLog := old(opsLog) + [entry])
      ensures ok <==> FullyReplicated(repl)
      ensures ok <==> repl != LookupFailed && forall i :: 0 <= i < |repl.replies| ==> repl.replies[i] == Acked
    {
      opsLog := opsLog + [entry];
      if repl.LookupFailed? {
        return false;
      }
      for i := 0 to |repl.replies|
        invariant forall j :: 0 <= j < i ==> repl.replies[j] == Acked
      {
        if repl.replies[i] != Acked {
          return false;
        }
      }
      return true;
    }

    /** `checkWLock`. */
    method CheckWLock(key: string) returns (present: bool, version: nat)
      ensures present <==> key in wLocks
      ensures version == if key in wLocks then wLocks[key].version else 0
    {
      if key !in wLocks {
        return false, 0;
      }
      return true, wLocks[key].version;
    }

    /** `createWLock`. */
    method CreateWLock(key: string, version: nat, timeout: nat, nodeId: string, incoming: Option<LogEntry>,
                       now: int, lockId: string, repl: Replication) returns (reply: WLockReply)
      requires !currentLM && incoming.Some? ==> Appendable(opsLog, incoming.value) && commitIndex >= -1
      modifies this
      ensures (Value(), reply) == WLock(old(Value()), key, version, timeout, nodeId, incoming, now, lockId, vn, host, repl)
    {
      if incoming.Some? && currentLM {
        return Granted("", 0, 0);
      }
      if !currentLM {
        if incoming.None? {
          return Refused(0, true);
        }
        AppendToLog(incoming.value);
        return Granted(incoming.value.lockId, version, timeout);
      }
      var present, held := CheckWLock(key);
      if present {
        return Refused(held, false);
      }
      var toLock := version;
      var committed := Committed(versionMap, key);
      if version <= committed {
        if version == 0 {
          toLock := (committed + 1) % UINT;
        } else {
          return Refused(committed, false);
        }
      }
      var t := now + timeout * SECOND;
      currOpNum := currOpNum + 1;
      var ok := LogAndReplicate(LogEntry(currOpNum, WRITE, key, toLock, t, lockId, commitPoint, vn, host), repl);
      if !ok {
        opsLog := opsLog[..|opsLog| - 1];
        return Refused(0, true);
      }
      wLocks := wLocks[key := WLockEntry(nodeId, lockId, toLock, t)];
      return Granted(lockId, toLock, timeout);
    }

    /** `commitWLock`; `invalidated` are the read locks it calls back. */
    method CommitWLock(key: string, version: nat, incoming: Option<LogEntry>, repl: Replication)
      returns (reply: CommitReply, invalidated: CopySet)
      requires !currentLM && incoming.Some? ==> Appendable(opsLog, incoming.value) && commitIndex >= -1
      modifies this
      ensures (Value(), reply, invalidated) == Commit(old(Value()), key, version, incoming, vn, host, repl)
    {
      invalidated := map[];
      if incoming.Some? && currentLM {
        return Done, invalidated;
      }
      if !currentLM {
        if incoming.None? {
          return Failed(true), invalidated;
        }
        AppendToLog(incoming.value);
        return Done, invalidated;
      }
      var present, held := CheckWLock(key);
      if !present || held != version {
        return Failed(false), invalidated;
      }
      currOpNum := currOpNum + 1;
      var ok := LogAndReplicate(LogEntry(currOpNum, COMMIT, key, version, 0, "", commitPoint, vn, host), repl);
      if !ok {
        opsLog := opsLog[..|opsLog| - 1];
        return Failed(true), invalidated;
      }
      versionMap := versionMap[key := version];
      wLocks := wLocks - {key};
      if version != 1 {
        if key in rLocks {
          invalidated := rLocks[key];
        }
        rLocks := rLocks - {key};
      }
      reply := Done;
    }

    /** `abortWLock`. */
    method AbortWLock(key: string, version: nat, incoming: Option<LogEntry>, repl: Replication) returns (reply: CommitReply)
      requires !currentLM && incoming.Some? ==> Appendable(opsLog, incoming.value) && commitIndex >= -1
      modifies this
      ensures (Value(), reply) == Abort(old(Value()), key, version, incoming, vn, host, repl)
    {
      if incoming.Some? && currentLM {
        return Done;
      }
      if !currentLM {
        if incoming.None? {
          return Failed(true);
        }
        AppendToLog(incoming.value);
        return Done;
      }
      var present, held := CheckWLock(key);
      if !present || held != version {
        return Failed(false);
      }
      currOpNum := currOpNum + 1;
      var ok := LogAndReplicate(LogEntry(currOpNum, ABORT, key, version, 0, "", commitPoint, vn, host), repl);
      if !ok {
        opsLog := opsLog[..|opsLog| - 1];
        return Failed(true);
      }
      wLocks := wLocks - {key};
      return Done;
    }

    /** `createRLock`. */
    method CreateRLock(key: string, nodeId: string, addr: string, incoming: Option<LogEntry>, lockId: string, repl: Replication)
      returns (reply: RLockReply)
      requires !currentLM && incoming.Some? ==> Appendable(opsLog, incoming.value) && commitIndex >= -1
      modifies this
      ensures (Value(), reply) == RLock(old(Value()), key, nodeId, addr, incoming, lockId, vn, host, repl)
    {
      if incoming.Some? && currentLM {
        return Registered("", 0);
      }
      if !currentLM {
        if incoming.None? {
          return NotRegistered(true);
        }
        AppendToLog(incoming.value);
        return Registered(incoming.value.lockId, incoming.value.version);
      }
      var version := Committed(versionMap, key);
      if version == 0 {
        return NotRegistered(false);
      }
      currOpNum := currOpNum + 1;
      var ok := LogAndReplicate(LogEntry(currOpNum, READ, key, 0, 0, lockId, commitPoint, vn, host), repl);
      if !ok {
        return NotRegistered(true);
      }
      var copySet: CopySet := map[];
      if key in rLocks {
        copySet := rLocks[key];
      }
      rLocks := rLocks[key := copySet[nodeId := ReadEntry(lockId, addr)]];
      return Registered(lockId, version);
    }

    /** The loop body of `scheduleTimeoutTicker`. */
    method ExpireWLocks(now: int)
      modifies this
      ensures Value() == Expire(old(Value()), now)
    {
      var left := wLocks.Keys;
      ghost var before := wLocks;
      while left != {}
        invariant left <= before.Keys
        invariant wLocks == map k | k in before && (k in left || before[k].timeout > now) :: before[k]
        invariant Value() == old(Value()).(wLocks := wLocks)
        decreases |left|
      {
        var k :| k in left;
        if wLocks[k].timeout <= now {
          wLocks := wLocks - {k};
        }
        left := left - {k};
      }
    }

    /** `ReplayLog`. */
    method ReplayLog()
      modifies this
      ensures Value() == AfterReplay(old(Value()))
    {
      versionMap, rLocks, wLocks, currOpNum := map[], map[], map[], 0;
      for i := 0 to |opsLog|
        invariant opsLog == old(opsLog)
        invariant Replayed(versionMap, wLocks, rLocks) == Replay(opsLog[..i])
        invariant Value() == old(Value()).(versionMap := versionMap, wLocks := wLocks, rLocks := rLocks, currOpNum := 0)
      {
        var e := opsLog[i];
        assert opsLog[..i + 1][..i] == opsLog[..i];
        match e.op {
          case WRITE =>
            wLocks := wLocks[e.key := WLockEntry(e.vn, e.lockId, e.version, e.timeout)];
          case READ =>
            var copySet: CopySet := map[];
            if e.key in rLocks {
              copySet := rLocks[e.key];
            }
            rLocks := rLocks[e.key := copySet[e.vn := ReadEntry(e.lockId, e.host)]];
          case COMMIT =>
            versionMap := versionMap[e.key := e.version];
            wLocks := wLocks - {e.key};
          case ABORT =>
            wLocks := wLocks - {e.key};
        }
      }
      assert opsLog[..|opsLog|] == opsLog;
    }
  }

  // ---------- what appendToLog does to a backup's log ----------

  /** Two logs that differ at most in their operation numbers. */
  ghost predicate SameContents(a: seq<LogEntry>, b: seq<LogEntry>) {
    |a| == |b| && forall i :: 0 <= i < |a| ==> a[i].(opNum := 0) == b[i].(opNum := 0)
  }

  ghost predicate SortedOpNums(log: seq<LogEntry>) {
    forall i, j :: 0 <= i < j < |log| ==> log[i].opNum <= log[j].opNum
  }

  /** Numbers sorted except that the one at i may belong further down. */
  ghost predicate SortedExcept(log: seq<LogEntry>, i: nat) {
    && i < |log|
    && (forall a, b :: 0 <= a < b < |log| && a != i && b != i ==> log[a].opNum <= log[b].opNum)
    && (forall b :: i < b < |log| ==> log[i].opNum <= log[b].opNum)
  }

  lemma {:induction false} SinkSorts(log: seq<LogEntry>, i: nat)
    requires SortedExcept(log, i) && log[0].opNum <= log[i].opNum
    ensures SortedOpNums(SinkOpNum(log, i)) && SameContents(SinkOpNum(log, i), log)
    decreases i
  {
    if i > 0 && log[i].opNum < log[i - 1].opNum {
      SinkSorts(SwapOpNums(log, i), i - 1);
    }
  }

  function OpNums(log: seq<LogEntry>): seq<nat> {
    seq(|log|, i requires 0 <= i < |log| => log[i].opNum)
  }

  lemma SwapPermutes(log: seq<LogEntry>, i: nat)
    requires 0 < i < |log|
    ensures multiset(OpNums(SwapOpNums(log, i))) == multiset(OpNums(log))
  {
    var a, b := OpNums(log), OpNums(SwapOpNums(log, i));
    assert b == a[i := a[i - 1]][i - 1 := a[i]];
    hide SwapOpNums, OpNums;
  }

  /** No number is lost or made up on the way. */
  lemma {:induction false} SinkPermutes(log: seq<LogEntry>, i: nat)
    requires i < |log| && log[0].opNum <= log[i].opNum
    ensures multiset(OpNums(SinkOpNum(log, i))) == multiset(OpNums(log))
    decreases i
  {
    if i > 0 && log[i].opNum < log[i - 1].opNum {
      SwapPermutes(log, i);
      SinkPermutes(SwapOpNums(log, i), i - 1);
    }
  }

  /** Replay does not look at operation numbers. */
  lemma {:induction false} ReplayIgnoresOpNums(a: seq<LogEntry>, b: seq<LogEntry>)
    requires SameContents(a, b)
    ensures Replay(a) == Replay(b)
    decreases |a|
  {
    if a != [] {
      ReplayIgnoresOpNums(a[..|a| - 1], b[..|b| - 1]);
      assert a[|a| - 1].(opNum := 0) == b[|b| - 1].(opNum := 0);
    }
  }

  /**
   * A backup's log keeps its numbers sorted while the operations themselves stay in
   * arrival order, so that it replays as the arrivals did.
   */
  lemma AppendSortsNumbersOnly(s: State, e: LogEntry)
    requires Appendable(s.opsLog, e) && s.commitIndex >= -1 && SortedOpNums(s.opsLog)
    ensures SortedOpNums(Appended(s, e).opsLog)
    ensures SameContents(Appended(s, e).opsLog, s.opsLog + [e])
    ensures Replay(Appended(s, e).opsLog) == ReplayOne(Replay(s.opsLog), e)
  {
    var log := s.opsLog + [e];
    if |log| > 1 {
      SinkSorts(log, |log| - 1);
    }
    ReplayIgnoresOpNums(Appended(s, e).opsLog, log);
    assert log[..|log| - 1] == s.opsLog;
  }

  /**
   * So arrival order matters: a commit that overtakes its lock request leaves the backup
   * with a lock that was already committed.
   */
  lemma OvertakingCommitLeavesLock(w: LogEntry, c: LogEntry)
    requires w.op == WRITE && c.op == COMMIT && w.key == c.key
    ensures w.key !in Replay([w, c]).wLocks
    ensures w.key in Replay([c, w]).wLocks
  {
  }

  // ---------- what the commit index of a backup is worth ----------

  /** From entry i on, each number follows the one before. */
  ghost predicate NoGapFrom(log: seq<LogEntry>, i: nat) {
    forall j :: i <= j < |log| && j > 0 ==> log[j].opNum == log[j - 1].opNum + 1
  }

  lemma {:induction false} AdvancesAllIff(log: seq<LogEntry>, i: nat)
    requires i <= |log|
    ensures Advances(log, i) <= |log| - i
    ensures Advances(log, i) == |log| - i <==> NoGapFrom(log, i)
    decreases |log| - i
  {
    if i < |log| {
      AdvancesAllIff(log, i + 1);
    }
  }

  /** An append to a log of some entries takes the commit index to its end exactly when no number is missing above it. */
  lemma CommitIndexReachesEndIff(s: State, e: LogEntry)
    requires s.opsLog != [] && Appendable(s.opsLog, e) && -1 <= s.commitIndex < |s.opsLog|
    ensures var t := Appended(s, e);
            && s.commitIndex <= t.commitIndex < |t.opsLog|
            && (t.commitIndex == |t.opsLog| - 1 <==> NoGapFrom(t.opsLog, s.commitIndex + 1))
  {
    AdvancesAllIff(SinkOpNum(s.opsLog + [e], |s.opsLog|), s.commitIndex + 1);
  }

  /** Entry j carries the number after that of the entry before it. */
  predicate Pair(log: seq<LogEntry>, j: int) {
    0 < j < |log| && log[j].opNum == log[j - 1].opNum + 1
  }

  /** The entries from i on that continue the one before them, and the first entry. */
  ghost function Continuing(log: seq<LogEntry>, i: nat): set<nat> {
    set j: nat | i <= j < |log| && (Pair(log, j) || j == 0)
  }

  lemma {:induction false} AdvancesCount(log: seq<LogEntry>, i: nat)
    ensures Advances(log, i) == |Continuing(log, i)|
    decreases |log| - i
  {
    if i < |log| {
      AdvancesCount(log, i + 1);
      var rest := Continuing(log, i + 1);
      assert i !in rest;
      assert Continuing(log, i) == if i == 0 || Pair(log, i) then rest + {i} else rest;
    } else {
      assert Continuing(log, i) == {};
    }
  }

  /**
   * Commit point and commit index move together, once for each entry above the index that
   * continues the one before it, and not at all with the very first entry.
   */
  lemma CommitPointFollowsIndex(s: State, e: LogEntry)
    requires Appendable(s.opsLog, e) && s.commitIndex >= -1
    ensures var t := Appended(s, e);
            && t.commitPoint - s.commitPoint == t.commitIndex - s.commitIndex >= 0
            && if s.opsLog == [] then t == s.(opsLog := [e])
               else t.commitIndex - s.commitIndex == |Continuing(t.opsLog, s.commitIndex + 1)|
  {
    AdvancesCount(Appended(s, e).opsLog, s.commitIndex + 1);
  }

  /** No number is missing up to entry c. */
  ghost predicate ContiguousTo(log: seq<LogEntry>, c: int) {
    forall j {:trigger Pair(log, j)} :: 0 < j <= c && j < |log| ==> Pair(log, j)
  }

  /** From entry i on, a number is missing and some later entry is in sequence again. */
  ghost predicate GapThenPair(log: seq<LogEntry>, i: int) {
    exists j, k {:trigger Pair(log, j), Pair(log, k)} :: i <= j < k < |log| && j > 0 && !Pair(log, j) && Pair(log, k)
  }

  lemma {:induction false} NoAdvanceIff(log: seq<LogEntry>, i: nat)
    requires 0 < i
    ensures Advances(log, i) == 0 <==> forall j {:trigger Pair(log, j)} :: i <= j ==> !Pair(log, j)
    decreases |log| - i
  {
    if i < |log| {
      NoAdvanceIff(log, i + 1);
      assert Pair(log, i) <==> log[i].opNum == log[i - 1].opNum + 1;
    }
  }

  /** The loop ends with nothing missing up to its index exactly when no gap it met was followed by a pair. */
  lemma {:induction false} AdvancesStopIff(log: seq<LogEntry>, i: nat)
    requires ContiguousTo(log, i - 1)
    ensures ContiguousTo(log, i - 1 + Advances(log, i)) <==> !GapThenPair(log, i)
    decreases |log| - i
  {
    if i < |log| {
      if i == 0 || Pair(log, i) {
        assert forall j :: 0 < j <= i && j < |log| ==> Pair(log, j);
        AdvancesStopIff(log, i + 1);
        assert GapThenPair(log, i) <==> GapThenPair(log, i + 1);
      } else {
        NoAdvanceIff(log, i + 1);
        if k :| i + 1 <= k && Pair(log, k) {
          assert !Pair(log, i);
          assert GapThenPair(log, i);
        }
      }
    }
  }

  lemma {:induction false} ContiguousNumbers(log: seq<LogEntry>, c: int, j: nat)
    requires ContiguousTo(log, c) && j <= c < |log|
    ensures log[j].opNum == log[0].opNum + j
    decreases j
  {
    if j > 0 {
      ContiguousNumbers(log, c, j - 1);
      assert Pair(log, j);
    }
  }

  /** A number that is larger than the one at c sinks no further than above it. */
  lemma {:induction false} SinkStopsAbove(log: seq<LogEntry>, i: nat, c: nat)
    requires c < i < |log| && log[0].opNum <= log[i].opNum && log[c].opNum <= log[i].opNum
    ensures forall j :: 0 <= j <= c ==> SinkOpNum(log, i)[j] == log[j]
    decreases i
  {
    if i > 0 && log[i].opNum < log[i - 1].opNum {
      SinkStopsAbove(SwapOpNums(log, i), i - 1, c);
    }
  }

  /** A new number above the first lands above everything contiguous. */
  lemma NewNumberKeepsContiguous(s: State, e: LogEntry, c: int)
    requires s.opsLog != [] && Appendable(s.opsLog, e) && s.commitIndex >= -1
    requires ContiguousTo(s.opsLog, c) && -1 <= c < |s.opsLog|
    requires forall j :: 0 <= j < |s.opsLog| ==> s.opsLog[j].opNum != e.opNum
    ensures ContiguousTo(Appended(s, e).opsLog, c)
  {
    var log, n := s.opsLog + [e], |s.opsLog|;
    if c >= 0 {
      ContiguousNumbers(s.opsLog, c, c);
      if e.opNum <= s.opsLog[c].opNum {
        ContiguousNumbers(s.opsLog, c, e.opNum - s.opsLog[0].opNum);
      }
      SinkStopsAbove(log, n, c);
      assert forall j :: 0 <= j <= c ==> Appended(s, e).opsLog[j] == s.opsLog[j];
      assert forall j :: 0 < j <= c ==> Pair(s.opsLog, j) ==> Pair(Appended(s, e).opsLog, j);
    }
  }

  /**
   * An append that leaves no number missing up to the old commit index leaves none missing
   * up to the new one exactly when no gap above it is followed by two entries in sequence.
   */
  lemma CommitIndexStopsIff(s: State, e: LogEntry)
    requires s.opsLog != [] && Appendable(s.opsLog, e) && -1 <= s.commitIndex < |s.opsLog|
    requires ContiguousTo(Appended(s, e).opsLog, s.commitIndex)
    ensures var t := Appended(s, e);
            ContiguousTo(t.opsLog, t.commitIndex) <==> !GapThenPair(t.opsLog, s.commitIndex + 1)
  {
    AdvancesStopIff(Appended(s, e).opsLog, s.commitIndex + 1);
  }

  /**
   * One such append: with one number missing right above the index, the next entry in
   * sequence still moves it, past the gap.
   */
  lemma CommitIndexPassesGap(s: State, e: LogEntry)
    requires |s.opsLog| >= 2 && s.commitIndex == |s.opsLog| - 2 && s.opsLog[0].opNum <= e.opNum
    requires s.opsLog[|s.opsLog| - 1].opNum > s.opsLog[|s.opsLog| - 2].opNum + 1
    requires e.opNum == s.opsLog[|s.opsLog| - 1].opNum + 1
    ensures var t := Appended(s, e);
            t.opsLog == s.opsLog + [e] && t.commitIndex == s.commitIndex + 1 && !NoGapFrom(t.opsLog, t.commitIndex)
  {
    var log, n := s.opsLog + [e], |s.opsLog|;
    assert SinkOpNum(log, n) == log;
    assert Advances(log, n - 1) == Advances(log, n) == 1 + Advances(log, n + 1);
  }
}
