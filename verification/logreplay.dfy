/**
 * What a log replays to, read off its last entries: the locks and versions that
 * `ReplayLog` of lm_server.go rebuilds, and when two logs rebuild the same ones.
 */
module LogReplay {
  import opened Wrappers
  import opened LockManager

  /** A write, commit or abort of the key: a READ leaves locks and versions alone. */
  predicate Changes(e: LogEntry, key: string) {
    e.key == key && e.op != READ
  }

  predicate CommitsTo(e: LogEntry, key: string) {
    e.key == key && e.op == COMMIT
  }

  /** Entry i changes the key and none after it does. */
  ghost predicate LastChangeAt(log: seq<LogEntry>, key: string, i: int) {
    0 <= i < |log| && Changes(log[i], key) && forall j :: i < j < |log| ==> !Changes(log[j], key)
  }

  /** Entry i commits the key and none after it does. */
  ghost predicate LastCommitAt(log: seq<LogEntry>, key: string, i: int) {
    0 <= i < |log| && CommitsTo(log[i], key) && forall j :: i < j < |log| ==> !CommitsTo(log[j], key)
  }

  /** The last entry that changes the key. */
  function LastChange(log: seq<LogEntry>, key: string): (r: Option<LogEntry>)
    ensures r.None? ==> forall i :: 0 <= i < |log| ==> !Changes(log[i], key)
    ensures r.Some? ==> exists i :: LastChangeAt(log, key, i) && log[i] == r.value
  {
    if log == [] then None
    else if Changes(log[|log| - 1], key) then
      assert LastChangeAt(log, key, |log| - 1);
      Some(log[|log| - 1])
    else
      var r := LastChange(log[..|log| - 1], key);
      assert forall i :: LastChangeAt(log[..|log| - 1], key, i) ==> LastChangeAt(log, key, i);
      r
  }

  /** The last COMMIT of the key. */
  function LastCommit(log: seq<LogEntry>, key: string): (r: Option<LogEntry>)
    ensures r.None? ==> forall i :: 0 <= i < |log| ==> !CommitsTo(log[i], key)
    ensures r.Some? ==> exists i :: LastCommitAt(log, key, i) && log[i] == r.value
  {
    if log == [] then None
    else if CommitsTo(log[|log| - 1], key) then
      assert LastCommitAt(log, key, |log| - 1);
      Some(log[|log| - 1])
    else
      var r := LastCommit(log[..|log| - 1], key);
      assert forall i :: LastCommitAt(log[..|log| - 1], key, i) ==> LastCommitAt(log, key, i);
      r
  }

  /** The lock that the last change of a key leaves: its own terms if it is a WRITE, none otherwise. */
  function LockLeft(log: seq<LogEntry>, key: string): Option<WLockEntry> {
    var e := LastChange(log, key);
    if e.Some? && e.value.op == WRITE then Some(WLockEntry(e.value.vn, e.value.lockId, e.value.version, e.value.timeout))
    else None
  }

  /** The version that the last COMMIT of a key leaves. */
  function VersionLeft(log: seq<LogEntry>, key: string): Option<nat> {
    var e := LastCommit(log, key);
    if e.Some? then Some(e.value.version) else None
  }

  function Lookup<T>(m: map<string, T>, key: string): Option<T> {
    if key in m then Some(m[key]) else None
  }

  lemma ReplayOneEntry(r: Replayed, e: LogEntry, key: string)
    ensures Lookup(ReplayOne(r, e).wLocks, key) ==
            if !Changes(e, key) then Lookup(r.wLocks, key)
            else if e.op == WRITE then Some(WLockEntry(e.vn, e.lockId, e.version, e.timeout))
            else None
    ensures Lookup(ReplayOne(r, e).versionMap, key) == if CommitsTo(e, key) then Some(e.version) else Lookup(r.versionMap, key)
  {
  }

  /** A key is locked after a replay iff its last change is a WRITE, on its terms; its version is its last COMMIT's. */
  lemma {:induction false} ReplayIsLastEntries(log: seq<LogEntry>, key: string)
    ensures Lookup(Replay(log).wLocks, key) == LockLeft(log, key)
    ensures Lookup(Replay(log).versionMap, key) == VersionLeft(log, key)
    decreases |log|
  {
    if log != [] {
      ReplayIsLastEntries(log[..|log| - 1], key);
      ReplayOneEntry(Replay(log[..|log| - 1]), log[|log| - 1], key);
      hide ReplayOne, Lookup;
    }
  }

  // ---------- read locks ----------

  predicate Reads(e: LogEntry, key: string, vn: string) {
    e.key == key && e.op == READ && e.vn == vn
  }

  /** Entry i registers the reader and none after it does. */
  ghost predicate LastReadAt(log: seq<LogEntry>, key: string, vn: string, i: int) {
    0 <= i < |log| && Reads(log[i], key, vn) && forall j :: i < j < |log| ==> !Reads(log[j], key, vn)
  }

  /** A node's registration as reader of a key. */
  function Reader(rLocks: map<string, CopySet>, key: string, vn: string): Option<ReadEntry> {
    if key in rLocks && vn in rLocks[key] then Some(rLocks[key][vn]) else None
  }

  /**
   * A replay registers a reader exactly when the log has a READ of the key by it, with the
   * lock id and address of the last one, whatever was committed since.
   */
  lemma {:induction false} ReplayedReaders(log: seq<LogEntry>, key: string, vn: string)
    ensures Reader(Replay(log).rLocks, key, vn).None? <==> forall i :: 0 <= i < |log| ==> !Reads(log[i], key, vn)
    ensures forall i {:trigger LastReadAt(log, key, vn, i)} :: LastReadAt(log, key, vn, i) ==>
              Reader(Replay(log).rLocks, key, vn) == Some(ReadEntry(log[i].lockId, log[i].host))
    ensures key in Replay(log).rLocks <==> exists i :: 0 <= i < |log| && log[i].op == READ && log[i].key == key
    decreases |log|
  {
    if log != [] {
      var n := |log| - 1;
      ReplayedReaders(log[..n], key, vn);
      assert forall i {:trigger LastReadAt(log, key, vn, i)} :: i < n && LastReadAt(log, key, vn, i) ==> LastReadAt(log[..n], key, vn, i);
      assert Replay(log) == ReplayOne(Replay(log[..n]), log[n]);
      hide Replay;
    }
  }

  /**
   * A manager that replays its log holds what the log's last entries leave of each key and
   * nothing it knew before; the log and how far it is committed stay.
   */
  lemma ReplayStartsAfresh(s: State, key: string, vn: string)
    ensures var t := AfterReplay(s);
            && Lookup(t.wLocks, key) == LockLeft(s.opsLog, key) && Lookup(t.versionMap, key) == VersionLeft(s.opsLog, key)
            && (Reader(t.rLocks, key, vn).Some? <==> exists i :: 0 <= i < |s.opsLog| && Reads(s.opsLog[i], key, vn))
            && (key in t.rLocks <==> exists i :: 0 <= i < |s.opsLog| && s.opsLog[i].op == READ && s.opsLog[i].key == key)
            && t.currOpNum == 0 && t.opsLog == s.opsLog && t.currentLM == s.currentLM
            && t.commitPoint == s.commitPoint && t.commitIndex == s.commitIndex
  {
    ReplayIsLastEntries(s.opsLog, key);
    ReplayedReaders(s.opsLog, key, vn);
    hide Replay, LockLeft, VersionLeft, Lookup, Reader;
  }

  // ---------- two logs ----------

  /** Two logs leave every key the same lock and the same version. */
  ghost predicate LeaveAlike(a: seq<LogEntry>, b: seq<LogEntry>) {
    forall key {:trigger LockLeft(a, key)} {:trigger VersionLeft(a, key)} ::
      LockLeft(a, key) == LockLeft(b, key) && VersionLeft(a, key) == VersionLeft(b, key)
  }

  /** Two logs, such as two arrival orders of the same entries, replay to the same locks and versions iff they leave them alike. */
  lemma ReplaysAgreeIff(a: seq<LogEntry>, b: seq<LogEntry>)
    ensures Replay(a).wLocks == Replay(b).wLocks && Replay(a).versionMap == Replay(b).versionMap <==> LeaveAlike(a, b)
  {
    var r, r' := Replay(a), Replay(b);
    forall key ensures Lookup(r.wLocks, key) == LockLeft(a, key) && Lookup(r.versionMap, key) == VersionLeft(a, key)
      && Lookup(r'.wLocks, key) == LockLeft(b, key) && Lookup(r'.versionMap, key) == VersionLeft(b, key) {
      ReplayIsLastEntries(a, key);
      ReplayIsLastEntries(b, key);
    }
    hide Replay, LockLeft, VersionLeft;
    if LeaveAlike(a, b) {
      forall key ensures Lookup(r.wLocks, key) == Lookup(r'.wLocks, key) {
        assert LockLeft(a, key) == LockLeft(b, key);
      }
      EqualByLookup(r.wLocks, r'.wLocks);
      forall key ensures Lookup(r.versionMap, key) == Lookup(r'.versionMap, key) {
        assert VersionLeft(a, key) == VersionLeft(b, key);
      }
      EqualByLookup(r.versionMap, r'.versionMap);
    }
  }

  lemma EqualByLookup<T>(m: map<string, T>, n: map<string, T>)
    requires forall key {:trigger Lookup(m, key)} :: Lookup(m, key) == Lookup(n, key)
    ensures m == n
  {
    forall key ensures key in m <==> key in n
      ensures key in m ==> m[key] == n[key] {
      assert Lookup(m, key) == Lookup(n, key);
    }
  }
}
