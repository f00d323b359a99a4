/**
 * Any number of clients, one primary lock manager and one master store, with messages that
 * are late, repeated or lost: what the version map names is what its writer stored.
 */
module EndToEnd {
  import opened Wrappers
  import opened LockManager
  import LockRuns
  import opened Store
  import opened Client

  /**
   * The whole system. Writes are numbered as clients send them; `wrote` are those the master
   * accepted, `seen` those whose client learned so and may commit, `committed` those whose
   * commit the lock manager accepted. `floor` is the highest purge so far.
   */
  datatype System = System(
    p: LockRuns.Primary,
    kv: map<string, seq<KVStoreValue>>,
    sent: map<nat, Write>,
    wrote: set<nat>,
    seen: set<nat>,
    committed: set<nat>,
    floor: map<string, nat>)

  datatype SysEvent =
    | Send(op: nat, w: Write)
    | ArriveSet(op: nat, replyLost: bool)
    | ArriveCommit(op: nat, repl: Replication)
    | AtLockManager(e: LockRuns.Event)
    | Purge(key: string, bound: nat)
    | Repair(key: string, values: seq<KVStoreValue>)

  /** The commit a client asks for. */
  function CommitOf(s: System, op: nat, repl: Replication): LockRuns.Event
    requires op in s.sent
  {
    LockRuns.AskCommit(s.sent[op].key, s.sent[op].version, repl)
  }

  /**
   * What may happen next. A client sends any version it likes and asks to commit only what
   * it saw stored; locks are asked for, aborted and expire at will; purges stay at or below
   * the committed version; a repair brings back values the master once accepted.
   */
  ghost predicate Enabled(s: System, e: SysEvent) {
    && s.p.lm.currentLM
    && match e
       case Send(op, w) => op !in s.sent && w.version < UINT
       case ArriveSet(op, _) => op in s.sent
       case ArriveCommit(op, _) => op in s.sent && op in s.seen
       case AtLockManager(r) => !r.AskCommit? && LockRuns.Representable(r) && !LockRuns.GrantWraps(s.p, r)
       case Purge(key, bound) => bound <= Committed(s.p.lm.versionMap, key)
       case Repair(key, values) => forall x :: x in values ==> Written(s, key, x.ver, x.val)
  }

  /** The master accepted this value under this version. */
  ghost predicate Written(s: System, key: string, version: nat, value: Value) {
    exists op :: op in s.wrote && op in s.sent && s.sent[op] == Write(key, version, value)
  }

  function Max(a: nat, b: nat): nat {
    if a < b then b else a
  }

  function FloorOf(s: System, key: string): nat {
    Committed(s.floor, key)
  }

  function StoreOp(s: System, e: SysEvent): Option<Store.Op>
    requires e.ArriveSet? ==> e.op in s.sent
  {
    match e
    case ArriveSet(op, _) => Some(Store.Op.Set(s.sent[op].key, s.sent[op].version, s.sent[op].value))
    case Purge(key, bound) => Some(Store.Op.PurgeVersions(key, bound))
    case Repair(key, values) => Some(Store.Op.BulkSet(key, values))
    case _ => None
  }

  ghost function StepSystem(s: System, e: SysEvent): System
    requires Enabled(s, e)
  {
    match e
    case Send(op, w) => s.(sent := s.sent[op := w])
    case ArriveSet(op, replyLost) =>
      var (kv, r) := Apply(s.kv, StoreOp(s, e).value);
      if r.Err? then s
      else s.(kv := kv, wrote := s.wrote + {op}, seen := if replyLost then s.seen else s.seen + {op})
    case ArriveCommit(op, repl) =>
      var r := CommitOf(s, op, repl);
      s.(p := LockRuns.Step(s.p, r), committed := if LockRuns.CommitAt(s.p, r).1.Done? then s.committed + {op} else s.committed)
    case AtLockManager(r) => s.(p := LockRuns.Step(s.p, r))
    case Purge(key, bound) =>
      s.(kv := Apply(s.kv, StoreOp(s, e).value).0, floor := s.floor[key := Max(FloorOf(s, key), bound)])
    case Repair(key, values) => s.(kv := Apply(s.kv, StoreOp(s, e).value).0)
  }

  // ---------- the invariant ----------

  /** The versions of a key at the master. */
  function At(s: System, key: string): Versions {
    VersionsOf(AbsStore(s.kv), key)
  }

  /** An accepted write is at or below the newest version stored, and is stored itself unless purged. */
  ghost predicate WriteKept(s: System, op: nat) {
    op in s.wrote ==>
      && op in s.sent
      && (exists v: nat :: v in At(s, s.sent[op].key) && v >= s.sent[op].version)
      && (s.sent[op].version >= FloorOf(s, s.sent[op].key) ==> s.sent[op].version in At(s, s.sent[op].key))
  }

  /** Everything stored was written by an accepted write. */
  ghost predicate EntryWritten(s: System, key: string, v: nat) {
    v in At(s, key) ==> Written(s, key, v, At(s, key)[v])
  }

  /** No version of a key is accepted from two writes. */
  ghost predicate WrittenOnce(s: System, a: nat, b: nat) {
    (a in s.wrote && b in s.wrote && a in s.sent && b in s.sent
     && s.sent[a].key == s.sent[b].key && s.sent[a].version == s.sent[b].version) ==> a == b
  }

  /** A committed version comes from an accepted commit, and no purge went above it. */
  ghost predicate VersionCommitted(s: System, key: string) {
    && FloorOf(s, key) <= Committed(s.p.lm.versionMap, key)
    && (key in s.p.lm.versionMap ==>
          exists op :: op in s.committed && op in s.sent && s.sent[op].key == key && s.sent[op].version == s.p.lm.versionMap[key])
  }

  ghost predicate StoreInv(s: System) {
    && WellFormed(s.kv)
    && s.committed <= s.seen <= s.wrote <= s.sent.Keys
    && (forall op {:trigger WriteKept(s, op)} :: WriteKept(s, op))
    && (forall key, v {:trigger EntryWritten(s, key, v)} :: EntryWritten(s, key, v))
    && (forall a, b {:trigger WrittenOnce(s, a, b)} :: WrittenOnce(s, a, b))
  }

  ghost predicate LockInv(s: System) {
    && s.p.lm.currentLM && LockRuns.InRange(s.p.lm) && LockRuns.HeldAbove(s.p.lm)
    && (forall op :: op in s.sent ==> s.sent[op].version < UINT)
    && (forall key {:trigger VersionCommitted(s, key)} :: VersionCommitted(s, key))
  }

  // ---------- steps at the master ----------

  /** What an operation leaves of a key. */
  lemma ApplyAt(kv: map<string, seq<KVStoreValue>>, op: Store.Op, key: string)
    requires WellFormed(kv)
    ensures WellFormed(Apply(kv, op).0)
    ensures var before, after := VersionsOf(AbsStore(kv), key), VersionsOf(AbsStore(Apply(kv, op).0), key);
            if op.key != key || Apply(kv, op).1.Err? then after == before
            else match op
              case Set(_, version, value) => after == before[version := value]
              case BulkSet(_, values) => after == MergedAll(before, values)
              case PurgeVersions(_, bound) => after == AtLeast(before, bound)
    ensures op.Set? ==> (Apply(kv, op).1.Ok? <==> Newest(AbsStore(kv), op.key, op.version))
  {
    ApplyRefines(kv, op);
    hide Apply, AbsStore, MergedAll;
  }

  /** The step is a store operation accepted by the master, which turned the versions of a key into these. */
  ghost predicate KeyBecomes(s: System, t: System, key: string, vs: Versions) {
    && WellFormed(t.kv)
    && At(t, key) == vs
    && forall k :: k != key ==> At(t, k) == At(s, k)
  }

  lemma AcceptedSet(s: System, e: SysEvent)
    requires Enabled(s, e) && StoreInv(s) && e.ArriveSet?
    ensures var w, t := s.sent[e.op], StepSystem(s, e);
            if Newest(AbsStore(s.kv), w.key, w.version) then
              KeyBecomes(s, t, w.key, At(s, w.key)[w.version := w.value]) && t.wrote == s.wrote + {e.op}
              && t.seen == if e.replyLost then s.seen else s.seen + {e.op}
            else t == s
  {
    var op := StoreOp(s, e).value;
    hide Apply, AbsStore, WriteKept, EntryWritten, WrittenOnce;
    forall k ensures var after := VersionsOf(AbsStore(Apply(s.kv, op).0), k);
                     op.key != k || Apply(s.kv, op).1.Err? ==> after == At(s, k) {
      ApplyAt(s.kv, op, k);
    }
    ApplyAt(s.kv, op, op.key);
  }

  lemma SetKeepsWrite(s: System, e: SysEvent, op: nat)
    requires Enabled(s, e) && StoreInv(s) && e.ArriveSet?
    ensures WriteKept(StepSystem(s, e), op)
  {
    var t, w := StepSystem(s, e), s.sent[e.op];
    AcceptedSet(s, e);
    assert t.sent == s.sent && t.floor == s.floor;
    hide StepSystem, At, WellFormed, EntryWritten, WrittenOnce;
    assert WriteKept(s, op);
    if t != s && op in t.wrote {
      assert w.version in At(t, w.key);
      if op != e.op {
        var v: nat :| v in At(s, s.sent[op].key) && v >= s.sent[op].version;
        assert v in At(t, s.sent[op].key);
      }
    }
  }

  lemma SetKeepsWrittenOnce(s: System, e: SysEvent, a: nat, b: nat)
    requires Enabled(s, e) && StoreInv(s) && e.ArriveSet?
    ensures WrittenOnce(StepSystem(s, e), a, b)
  {
    AcceptedSet(s, e);
    assert StepSystem(s, e).sent == s.sent;
    AtIs(s, s.sent[e.op].key);
    hide StepSystem, At, AbsStore, WellFormed, EntryWritten;
    assert WrittenOnce(s, a, b) && WriteKept(s, a) && WriteKept(s, b);
  }

  lemma AtIs(s: System, key: string)
    ensures At(s, key) == VersionsOf(AbsStore(s.kv), key)
  {
  }

  lemma SetKeepsEntries(s: System, e: SysEvent)
    requires Enabled(s, e) && StoreInv(s) && e.ArriveSet?
    ensures forall key, v {:trigger EntryWritten(StepSystem(s, e), key, v)} :: EntryWritten(StepSystem(s, e), key, v)
  {
    var t, w := StepSystem(s, e), s.sent[e.op];
    AcceptedSet(s, e);
    assert t.sent == s.sent && s.wrote <= t.wrote;
    hide StepSystem, At;
    forall key, v ensures EntryWritten(t, key, v) {
      assert EntryWritten(s, key, v);
      if key == w.key && v == w.version && e.op in t.wrote {
        assert Written(t, key, v, w.value);
      }
    }
  }

  lemma PurgedKey(s: System, e: SysEvent)
    requires Enabled(s, e) && StoreInv(s) && e.Purge?
    ensures KeyBecomes(s, StepSystem(s, e), e.key, AtLeast(At(s, e.key), e.bound))
  {
    var t, op := StepSystem(s, e), StoreOp(s, e).value;
    assert e.key !in s.kv ==> AtLeast(At(s, e.key), e.bound) == At(s, e.key);
    assert Apply(s.kv, op).1.Err? ==> e.key !in s.kv;
    forall k ensures At(t, k) == if k == e.key then AtLeast(At(s, k), e.bound) else At(s, k) {
      ApplyAt(s.kv, op, k);
    }
    ApplyAt(s.kv, op, op.key);
  }

  /** A purge keeps the committed version, and so something at least as new as anything ever accepted. */
  lemma PurgeKeepsNewest(s: System, key: string, bound: nat, op: nat)
    requires StoreInv(s) && LockInv(s) && bound <= Committed(s.p.lm.versionMap, key)
    requires op in s.wrote && s.sent[op].key == key
    ensures exists v: nat :: v in AtLeast(At(s, key), bound) && v >= s.sent[op].version
  {
    hide At, WellFormed, EntryWritten, WrittenOnce;
    assert WriteKept(s, op) && VersionCommitted(s, key);
    var v: nat :| v in At(s, key) && v >= s.sent[op].version;
    if v < bound {
      var c :| c in s.committed && c in s.sent && s.sent[c].key == key && s.sent[c].version == s.p.lm.versionMap[key];
      assert WriteKept(s, c);
      assert s.sent[c].version in AtLeast(At(s, key), bound);
    } else {
      assert v in AtLeast(At(s, key), bound);
    }
  }

  lemma PurgeKeepsWrites(s: System, e: SysEvent)
    requires Enabled(s, e) && StoreInv(s) && LockInv(s) && e.Purge?
    ensures forall op {:trigger WriteKept(StepSystem(s, e), op)} :: WriteKept(StepSystem(s, e), op)
  {
    var t := StepSystem(s, e);
    PurgedKey(s, e);
    assert t.sent == s.sent && t.wrote == s.wrote;
    assert t.floor == s.floor[e.key := Max(FloorOf(s, e.key), e.bound)];
    hide StepSystem, At, WellFormed, EntryWritten, WrittenOnce;
    forall op ensures WriteKept(t, op) {
      assert WriteKept(s, op);
      if op in s.wrote && s.sent[op].key == e.key {
        PurgeKeepsNewest(s, e.key, e.bound, op);
        hide LockInv;
      }
    }
  }

  /** Steps that leave the master alone. */
  lemma SameStoreKeepsInv(s: System, t: System)
    requires StoreInv(s) && t.kv == s.kv && t.wrote == s.wrote && t.floor == s.floor
    requires s.sent.Keys <= t.sent.Keys && (forall op :: op in s.sent ==> t.sent[op] == s.sent[op])
    requires t.committed <= t.seen <= t.wrote
    ensures StoreInv(t)
  {
    forall key ensures At(t, key) == At(s, key) {
    }
    hide At, WellFormed;
    forall op ensures WriteKept(t, op) {
      assert WriteKept(s, op);
    }
    forall key, v ensures EntryWritten(t, key, v) {
      assert EntryWritten(s, key, v);
    }
    forall a, b ensures WrittenOnce(t, a, b) {
      assert WrittenOnce(s, a, b);
    }
  }

  lemma SetKeepsInv(s: System, e: SysEvent)
    requires Enabled(s, e) && StoreInv(s) && e.ArriveSet?
    ensures StoreInv(StepSystem(s, e))
  {
    AcceptedSet(s, e);
    SetKeepsEntries(s, e);
    forall op ensures WriteKept(StepSystem(s, e), op) {
      SetKeepsWrite(s, e, op);
    }
    forall a, b ensures WrittenOnce(StepSystem(s, e), a, b) {
      SetKeepsWrittenOnce(s, e, a, b);
    }
    hide WriteKept, EntryWritten, WrittenOnce, Apply;
  }

  lemma PurgeKeepsInv(s: System, e: SysEvent)
    requires Enabled(s, e) && StoreInv(s) && LockInv(s) && e.Purge?
    ensures StoreInv(StepSystem(s, e))
  {
    var t := StepSystem(s, e);
    PurgedKey(s, e);
    PurgeKeepsWrites(s, e);
    assert t.sent == s.sent && t.wrote == s.wrote && t.committed == s.committed && t.seen == s.seen;
    hide StepSystem, At, WriteKept, WellFormed, Enabled;
    forall key, v ensures EntryWritten(t, key, v) {
      assert EntryWritten(s, key, v);
    }
    forall a, b ensures WrittenOnce(t, a, b) {
      assert WrittenOnce(s, a, b);
    }
  }

  /** A repair brings in only what the master once accepted. */
  lemma RepairKeepsInv(s: System, e: SysEvent)
    requires Enabled(s, e) && StoreInv(s) && e.Repair?
    ensures StoreInv(StepSystem(s, e))
  {
    var t, op := StepSystem(s, e), StoreOp(s, e).value;
    assert MergedAll(At(s, e.key), []) == At(s, e.key);
    forall k ensures At(t, k) == if k == e.key then MergedAll(At(s, k), e.values) else At(s, k) {
      ApplyAt(s.kv, op, k);
    }
    ApplyAt(s.kv, op, op.key);
    assert t.sent == s.sent && t.wrote == s.wrote && t.committed == s.committed && t.seen == s.seen && t.floor == s.floor;
    hide StepSystem, At, WellFormed, Apply, MergedAll;
    MergedAllExtends(At(s, e.key), e.values);
    forall w ensures WriteKept(t, w) {
      assert WriteKept(s, w);
    }
    forall key, v ensures EntryWritten(t, key, v) {
      assert EntryWritten(s, key, v);
      if key == e.key && v in At(t, key) {
        MergedAllSource(At(s, key), e.values, v);
      }
    }
    forall a, b ensures WrittenOnce(t, a, b) {
      assert WrittenOnce(s, a, b);
    }
  }

  // ---------- steps at the lock manager ----------

  /** A commit is accepted iff its lock is still held at its version and the operation is fully replicated; otherwise nothing is committed. */
  lemma AcceptedCommit(s: System, e: SysEvent)
    requires Enabled(s, e) && e.ArriveCommit?
    ensures var w, t := s.sent[e.op], StepSystem(s, e);
            && t == s.(p := t.p, committed := t.committed)
            && if w.key in s.p.lm.wLocks && s.p.lm.wLocks[w.key].version == w.version && FullyReplicated(e.repl) then
                 && t.committed == s.committed + {e.op} && t.p.lm.versionMap == s.p.lm.versionMap[w.key := w.version]
                 && t.p.lm.wLocks == s.p.lm.wLocks - {w.key}
               else
                 && t.committed == s.committed && t.p.lm.versionMap == s.p.lm.versionMap
                 && t.p.lm.wLocks == s.p.lm.wLocks
  {
    LockRuns.StepDoes(s.p, CommitOf(s, e.op, e.repl));
    hide LockRuns.Step, LockRuns.CommitAt;
  }

  lemma CommitKeepsLocks(s: System, e: SysEvent)
    requires Enabled(s, e) && LockInv(s) && e.ArriveCommit?
    ensures LockInv(StepSystem(s, e))
  {
    var t, r := StepSystem(s, e), CommitOf(s, e.op, e.repl);
    LockRuns.StepInRange(s.p, r);
    LockRuns.StepHeldAboveIff(s.p, r);
    LockRuns.StepCommits(s.p, r);
    hide LockRuns.Step, LockRuns.InRange, LockRuns.HeldAbove, LockRuns.CommitAt;
    forall key ensures VersionCommitted(t, key) {
      assert VersionCommitted(s, key);
    }
  }

  lemma OtherKeepsLocks(s: System, e: SysEvent)
    requires Enabled(s, e) && LockInv(s) && !e.ArriveCommit?
    ensures LockInv(StepSystem(s, e))
  {
    var t := StepSystem(s, e);
    if e.AtLockManager? {
      LockRuns.StepInRange(s.p, e.e);
      LockRuns.StepHeldAboveIff(s.p, e.e);
      LockRuns.StepCommits(s.p, e.e);
    }
    hide LockRuns.Step, LockRuns.InRange, LockRuns.HeldAbove, Apply;
    forall key ensures VersionCommitted(t, key) {
      assert VersionCommitted(s, key);
    }
  }

  lemma StepKeepsInv(s: System, e: SysEvent)
    requires Enabled(s, e) && StoreInv(s) && LockInv(s)
    ensures StoreInv(StepSystem(s, e)) && LockInv(StepSystem(s, e))
  {
    var t := StepSystem(s, e);
    if e.ArriveCommit? {
      CommitKeepsLocks(s, e);
    } else {
      OtherKeepsLocks(s, e);
    }
    match e {
      case ArriveSet(_, _) => SetKeepsInv(s, e);
      case Purge(_, _) => PurgeKeepsInv(s, e);
      case Repair(_, _) => RepairKeepsInv(s, e);
      case _ => SameStoreKeepsInv(s, t);
    }
  }

  // ---------- runs ----------

  ghost predicate AllEnabled(s: System, es: seq<SysEvent>)
    decreases |es|
  {
    es == [] || (Enabled(s, es[0]) && AllEnabled(StepSystem(s, es[0]), es[1..]))
  }

  ghost function RunSystem(s: System, es: seq<SysEvent>): System
    requires AllEnabled(s, es)
    decreases |es|
  {
    if es == [] then s else RunSystem(StepSystem(s, es[0]), es[1..])
  }

  /** An empty store and a lock manager that knows no versions. */
  ghost predicate Start(s: System) {
    && s.p.lm.currentLM && s.p.lm.versionMap == map[] && s.p.lm.wLocks == map[]
    && s.kv == map[] && s.sent == map[] && s.wrote == {} && s.seen == {} && s.committed == {} && s.floor == map[]
  }

  lemma StartHasInv(s: System)
    requires Start(s)
    ensures StoreInv(s) && LockInv(s)
  {
  }

  /** Accepted writes stay accepted, committed ones committed, and no message sent is ever altered. */
  lemma StepGrows(s: System, e: SysEvent)
    requires Enabled(s, e)
    ensures s.wrote <= StepSystem(s, e).wrote && s.committed <= StepSystem(s, e).committed
    ensures forall op :: op in s.sent ==> op in StepSystem(s, e).sent && StepSystem(s, e).sent[op] == s.sent[op]
  {
    hide LockRuns.Step, LockRuns.CommitAt, Apply;
  }

  lemma {:induction false} RunKeepsInv(s: System, es: seq<SysEvent>)
    requires StoreInv(s) && LockInv(s) && AllEnabled(s, es)
    ensures StoreInv(RunSystem(s, es)) && LockInv(RunSystem(s, es))
    ensures s.committed <= RunSystem(s, es).committed
    ensures forall op :: op in s.sent ==> op in RunSystem(s, es).sent && RunSystem(s, es).sent[op] == s.sent[op]
    decreases |es|
  {
    hide StoreInv, LockInv, StepSystem, Enabled;
    if es != [] {
      StepKeepsInv(s, es[0]);
      StepGrows(s, es[0]);
      RunKeepsInv(StepSystem(s, es[0]), es[1..]);
    }
  }

  /** The master holds the bytes of this write under its version. */
  ghost predicate Holds(s: System, op: nat) {
    && op in s.sent
    && s.sent[op].version in At(s, s.sent[op].key)
    && At(s, s.sent[op].key)[s.sent[op].version] == s.sent[op].value
  }

  /** What the master stores under an accepted write's version is that write's value. */
  lemma StoredIsOwn(s: System, op: nat)
    requires StoreInv(s) && op in s.wrote
    ensures op in s.sent
    ensures s.sent[op].version in At(s, s.sent[op].key) ==> Holds(s, op)
    ensures s.sent[op].version >= FloorOf(s, s.sent[op].key) ==> Holds(s, op)
  {
    hide At, WellFormed;
    assert WriteKept(s, op);
    var w := s.sent[op];
    assert EntryWritten(s, w.key, w.version);
    if w.version in At(s, w.key) {
      var o :| o in s.wrote && o in s.sent && s.sent[o] == Write(w.key, w.version, At(s, w.key)[w.version]);
      assert WrittenOnce(s, o, op);
    }
  }

  /**
   * End to end: in every reachable state, each key's version in the version map is held by
   * the master with exactly the bytes of the one client whose commit of it was accepted.
   */
  lemma VersionMapIsStored(s: System, es: seq<SysEvent>, key: string)
    requires Start(s) && AllEnabled(s, es)
    requires key in RunSystem(s, es).p.lm.versionMap
    ensures var t := RunSystem(s, es);
            exists op :: op in t.committed && Holds(t, op)
              && t.sent[op].key == key && t.sent[op].version == t.p.lm.versionMap[key]
  {
    StartHasInv(s);
    RunKeepsInv(s, es);
    var t := RunSystem(s, es);
    assert VersionCommitted(t, key);
    hide At, WellFormed, Start, AllEnabled, RunSystem;
    var op :| op in t.committed && op in t.sent && t.sent[op].key == key && t.sent[op].version == t.p.lm.versionMap[key];
    StoredIsOwn(t, op);
  }

  /** Each version of a key is committed for one write only, whoever held the lock meanwhile. */
  lemma CommittedOnce(s: System, es: seq<SysEvent>, a: nat, b: nat)
    requires Start(s) && AllEnabled(s, es)
    requires var t := RunSystem(s, es);
             a in t.committed && b in t.committed && a in t.sent && b in t.sent
             && t.sent[a].key == t.sent[b].key && t.sent[a].version == t.sent[b].version
    ensures a == b
  {
    StartHasInv(s);
    RunKeepsInv(s, es);
    assert WrittenOnce(RunSystem(s, es), a, b);
  }

  /**
   * Once accepted, a commit's bytes never change: through any further run, with locks
   * expiring, versions granted again and messages late, repeated or lost, the master holds
   * exactly them until a purge goes above the version, and never other bytes under it.
   */
  lemma CommittedBytesStay(s: System, es: seq<SysEvent>, later: seq<SysEvent>, op: nat)
    requires Start(s) && AllEnabled(s, es) && AllEnabled(RunSystem(s, es), later)
    requires op in RunSystem(s, es).committed
    ensures var t, u := RunSystem(s, es), RunSystem(RunSystem(s, es), later);
            && op in t.sent && op in u.sent && u.sent[op] == t.sent[op]
            && (FloorOf(u, u.sent[op].key) <= u.sent[op].version ==> Holds(u, op))
            && (u.sent[op].version in At(u, u.sent[op].key) ==> Holds(u, op))
  {
    StartHasInv(s);
    RunKeepsInv(s, es);
    RunKeepsInv(RunSystem(s, es), later);
    StoredIsOwn(RunSystem(RunSystem(s, es), later), op);
  }
  // ---------- a write that meets no failure ----------

  /** A client asks for the next version of a key that nobody holds, and there is one. */
  predicate AsksNext(s: System, ask: LockRuns.Event) {
    && ask.AskWLock? && ask.version == 0 && FullyReplicated(ask.repl)
    && ask.key !in s.p.lm.wLocks && !LockRuns.WrapsRound(s.p.lm, ask.key, 0)
  }

  /** The write under the version granted. */
  function NextWrite(s: System, ask: LockRuns.Event, value: Value): Write
    requires ask.AskWLock?
  {
    Write(ask.key, Committed(s.p.lm.versionMap, ask.key) + 1, value)
  }

  lemma NextIsGranted(s: System, ask: LockRuns.Event)
    requires LockInv(s) && AsksNext(s, ask)
    ensures Enabled(s, AtLockManager(ask))
    ensures var t, v := StepSystem(s, AtLockManager(ask)), Committed(s.p.lm.versionMap, ask.key) + 1;
            && t == s.(p := t.p) && t.p.lm.currentLM && v < UINT
            && t.p.lm.versionMap == s.p.lm.versionMap
            && ask.key in t.p.lm.wLocks && t.p.lm.wLocks[ask.key].version == v
  {
    LockRuns.StepDoes(s.p, ask);
    hide LockRuns.Step;
  }

  /** The lock is granted, the value is sent under its version and reaches the master, and the client hears the answer. */
  ghost function Stored(s: System, ask: LockRuns.Event, op: nat, value: Value): System
    requires LockInv(s) && StoreInv(s) && AsksNext(s, ask) && op !in s.sent
  {
    NextIsGranted(s, ask);
    var s1 := StepSystem(s, AtLockManager(ask));
    var s2 := StepSystem(s1, Send(op, NextWrite(s, ask, value)));
    StepSystem(s2, ArriveSet(op, false))
  }

  lemma StoredIsRun(s: System, ask: LockRuns.Event, op: nat, value: Value)
    requires LockInv(s) && StoreInv(s) && AsksNext(s, ask) && op !in s.sent
    ensures var es := [AtLockManager(ask), Send(op, NextWrite(s, ask, value)), ArriveSet(op, false)];
            AllEnabled(s, es) && RunSystem(s, es) == Stored(s, ask, op, value)
  {
    NextIsGranted(s, ask);
    var e1, e2, e3 := AtLockManager(ask), Send(op, NextWrite(s, ask, value)), ArriveSet(op, false);
    var s1 := StepSystem(s, e1);
    var s2 := StepSystem(s1, e2);
    var s3 := StepSystem(s2, e3);
    assert Enabled(s1, e2) && Enabled(s2, e3);
    hide StepSystem, Enabled, LockInv, StoreInv;
    assert [e1, e2, e3][1..] == [e2, e3] && [e2, e3][1..] == [e3] && [e3][1..] == [];
    assert AllEnabled(s3, []) && RunSystem(s3, []) == s3;
    assert AllEnabled(s2, [e3]) && RunSystem(s2, [e3]) == s3;
    assert AllEnabled(s1, [e2, e3]) && RunSystem(s1, [e2, e3]) == s3;
  }

  /**
   * A write that meets no failure can be committed exactly when its version is above all
   * that the master stores, and then the version map names it and the master holds it.
   */
  lemma WriteGoesThroughIff(s: System, ask: LockRuns.Event, op: nat, value: Value, repl: Replication)
    requires LockInv(s) && StoreInv(s) && AsksNext(s, ask) && op !in s.sent && FullyReplicated(repl)
    ensures var t, w := Stored(s, ask, op, value), NextWrite(s, ask, value);
            && (Enabled(t, ArriveCommit(op, repl)) <==> Newest(AbsStore(s.kv), w.key, w.version))
            && (Enabled(t, ArriveCommit(op, repl)) ==>
                  var u := StepSystem(t, ArriveCommit(op, repl));
                  op in u.committed && u.sent[op] == w && Holds(u, op)
                  && u.p.lm.versionMap == s.p.lm.versionMap[w.key := w.version] && w.key !in u.p.lm.wLocks)
  {
    NextIsGranted(s, ask);
    var w := NextWrite(s, ask, value);
    var s1 := StepSystem(s, AtLockManager(ask));
    var s2 := StepSystem(s1, Send(op, w));
    var t := StepSystem(s2, ArriveSet(op, false));
    assert s2 == s1.(sent := s1.sent[op := w]);
    SameStoreKeepsInv(s, s2);
    AcceptedSet(s2, ArriveSet(op, false));
    assert op !in s.seen && t.p == s1.p && t.sent == s2.sent;
    assert op in t.seen <==> Newest(AbsStore(s.kv), w.key, w.version);
    assert op in t.seen ==> Holds(t, op);
    assert t == Stored(s, ask, op, value);
    hide Stored, StoreInv, LockInv, AbsStore, At, Apply, AsksNext, Newest, StepSystem, NextWrite;
    if Enabled(t, ArriveCommit(op, repl)) {
      AcceptedCommit(t, ArriveCommit(op, repl));
      SameStore(t, StepSystem(t, ArriveCommit(op, repl)), w.key);
    }
  }

  lemma SameStore(s: System, t: System, key: string)
    requires s.kv == t.kv
    ensures At(s, key) == At(t, key)
  {
  }
}
