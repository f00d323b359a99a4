/**
 * The replicas around the master: fresh values pushed to them, exchanges between any two
 * stores, purges. Whoever answers a read of a committed version answers with its bytes.
 */
module Replicas {
  import opened Wrappers
  import opened LockManager
  import opened Store
  import opened Client
  import opened EndToEnd
  import opened AntiEntropy

  /** The system with the stores of the other nodes, by a number for each. */
  datatype Cluster = Cluster(s: System, stores: map<nat, map<string, seq<KVStoreValue>>>)

  /**
   * A step of the system; a value the master accepted that reaches a replica now or much
   * later; an exchange that repairs one store from another, the master's among them; and a
   * purge at a replica.
   */
  datatype ClusterEvent =
    | AtSystem(e: SysEvent)
    | Pushed(node: nat, op: nat)
    | FromMaster(node: nat, key: string)
    | FromReplica(source: nat, node: nat, key: string)
    | ToMaster(node: nat, key: string)
    | ReplicaPurge(node: nat, key: string, bound: nat)

  /** What the master asks a replica for, and gets. */
  function RepairValues(c: Cluster, node: nat, key: string): seq<KVStoreValue>
    requires node in c.stores
  {
    var theirs := ListOf(c.stores[node], key);
    Fetched(Abs(theirs), Missing(Abs(ListOf(c.s.kv, key)), VersionList(theirs)))
  }

  ghost predicate Possible(c: Cluster, e: ClusterEvent) {
    && c.s.p.lm.currentLM
    && match e
       case AtSystem(e) => !e.Repair? && Enabled(c.s, e)
       case Pushed(node, op) => node in c.stores && op in c.s.wrote && op in c.s.sent
       case FromMaster(node, _) => node in c.stores
       case FromReplica(source, node, _) => node in c.stores && source in c.stores
       case ToMaster(node, key) => node in c.stores
       case ReplicaPurge(node, _, _) => node in c.stores
  }

  ghost function StepCluster(c: Cluster, e: ClusterEvent): Cluster
    requires Possible(c, e)
  {
    match e
    case AtSystem(e) => c.(s := StepSystem(c.s, e))
    case Pushed(node, op) =>
      var w := c.s.sent[op];
      c.(stores := c.stores[node := Apply(c.stores[node], Store.Op.Set(w.key, w.version, w.value)).0])
    case FromMaster(node, key) => c.(stores := c.stores[node := Exchanged(c.s.kv, c.stores[node], key).0])
    case FromReplica(source, node, key) => c.(stores := c.stores[node := Exchanged(c.stores[source], c.stores[node], key).0])
    case ToMaster(node, key) => c.(s := c.s.(kv := Exchanged(c.stores[node], c.s.kv, key).0))
    case ReplicaPurge(node, key, bound) =>
      c.(stores := c.stores[node := Apply(c.stores[node], Store.Op.PurgeVersions(key, bound)).0])
  }

  // ---------- every entry anywhere was accepted by the master ----------

  /** Everything in a store was written by a write the master accepted. */
  ghost predicate Genuine(s: System, kv: map<string, seq<KVStoreValue>>) {
    && WellFormed(kv)
    && forall key, v {:trigger GenuineEntry(s, kv, key, v)} :: GenuineEntry(s, kv, key, v)
  }

  ghost predicate GenuineEntry(s: System, kv: map<string, seq<KVStoreValue>>, key: string, v: nat) {
    v in VersionsOf(AbsStore(kv), key) ==> Written(s, key, v, VersionsOf(AbsStore(kv), key)[v])
  }

  ghost predicate ClusterInv(c: Cluster) {
    && StoreInv(c.s) && LockInv(c.s)
    && forall node {:trigger c.stores[node]} :: node in c.stores ==> Genuine(c.s, c.stores[node])
  }

  lemma MasterIsGenuine(s: System)
    requires StoreInv(s)
    ensures Genuine(s, s.kv)
  {
    forall key, v ensures GenuineEntry(s, s.kv, key, v) {
      assert EntryWritten(s, key, v);
    }
  }

  /** What was written stays written. */
  lemma GenuineStays(s: System, t: System, kv: map<string, seq<KVStoreValue>>)
    requires Genuine(s, kv) && s.wrote <= t.wrote && forall op :: op in s.sent ==> op in t.sent && t.sent[op] == s.sent[op]
    ensures Genuine(t, kv)
  {
    hide AbsStore, WellFormed;
    forall key, v ensures GenuineEntry(t, kv, key, v) {
      assert GenuineEntry(s, kv, key, v);
    }
  }

  lemma ExchangeIsGenuine(s: System, owner: map<string, seq<KVStoreValue>>, replica: map<string, seq<KVStoreValue>>, key: string)
    requires Genuine(s, owner) && Genuine(s, replica)
    ensures Genuine(s, Exchanged(owner, replica, key).0)
  {
    ExchangeIsUnion(owner, replica, key);
    var after := Exchanged(owner, replica, key).0;
    forall k, v ensures GenuineEntry(s, after, k, v) {
      assert GenuineEntry(s, owner, k, v) && GenuineEntry(s, replica, k, v);
      VersionsOfAbs(owner, k);
      VersionsOfAbs(replica, k);
      VersionsOfAbs(after, k);
      hide Exchanged, WellFormed, AbsStore, VersionsOf, Written, ListOf;
    }
  }

  lemma PushIsGenuine(s: System, kv: map<string, seq<KVStoreValue>>, op: nat)
    requires Genuine(s, kv) && op in s.wrote && op in s.sent
    ensures Genuine(s, Apply(kv, Store.Op.Set(s.sent[op].key, s.sent[op].version, s.sent[op].value)).0)
  {
    var w := s.sent[op];
    var after := Apply(kv, Store.Op.Set(w.key, w.version, w.value)).0;
    assert Written(s, w.key, w.version, w.value);
    ApplyAt(kv, Store.Op.Set(w.key, w.version, w.value), w.key);
    forall k, v ensures GenuineEntry(s, after, k, v) {
      assert GenuineEntry(s, kv, k, v);
      ApplyAt(kv, Store.Op.Set(w.key, w.version, w.value), k);
      hide Apply, WellFormed, AbsStore, VersionsOf, Written;
    }
  }

  lemma PurgeIsGenuine(s: System, kv: map<string, seq<KVStoreValue>>, key: string, bound: nat)
    requires Genuine(s, kv)
    ensures Genuine(s, Apply(kv, Store.Op.PurgeVersions(key, bound)).0)
  {
    var after := Apply(kv, Store.Op.PurgeVersions(key, bound)).0;
    ApplyAt(kv, Store.Op.PurgeVersions(key, bound), key);
    forall k, v ensures GenuineEntry(s, after, k, v) {
      assert GenuineEntry(s, kv, k, v);
      ApplyAt(kv, Store.Op.PurgeVersions(key, bound), k);
      hide Apply, WellFormed, AbsStore, VersionsOf, Written;
    }
  }

  /** What a replica answers the master with is what a repair of the system may bring back. */
  lemma AnswerIsWritten(c: Cluster, node: nat, key: string, x: KVStoreValue)
    requires ClusterInv(c) && node in c.stores && x in RepairValues(c, node, key)
    ensures Written(c.s, key, x.ver, x.val)
  {
    var theirs := ListOf(c.stores[node], key);
    FetchedMembers(Abs(theirs), Missing(Abs(ListOf(c.s.kv, key)), VersionList(theirs)), x);
    assert GenuineEntry(c.s, c.stores[node], key, x.ver);
    VersionsOfAbs(c.stores[node], key);
  }

  /** An exchange towards the master is a repair step of the system, or changes nothing. */
  lemma ToMasterIsRepair(c: Cluster, node: nat, key: string)
    requires ClusterInv(c) && node in c.stores
    ensures var values := RepairValues(c, node, key);
            && Enabled(c.s, Repair(key, values))
            && StepCluster(c, ToMaster(node, key)).s in {c.s, StepSystem(c.s, Repair(key, values))}
  {
    var values := RepairValues(c, node, key);
    forall x | x in values ensures Written(c.s, key, x.ver, x.val) {
      AnswerIsWritten(c, node, key, x);
    }
    hide Written, Apply, Fetched, Missing, VersionList, Abs;
  }

  lemma StepKeepsSystem(c: Cluster, e: ClusterEvent)
    requires ClusterInv(c) && Possible(c, e)
    ensures var s, t := c.s, StepCluster(c, e).s;
            && StoreInv(t) && LockInv(t) && s.wrote <= t.wrote && s.committed <= t.committed
            && forall op :: op in s.sent ==> op in t.sent && t.sent[op] == s.sent[op]
  {
    var system := match e
      case AtSystem(e) => Some(e)
      case ToMaster(node, key) => Some(Repair(key, RepairValues(c, node, key)))
      case _ => None;
    if e.ToMaster? {
      ToMasterIsRepair(c, e.node, e.key);
    }
    hide StoreInv, LockInv, Exchanged, Apply, StepSystem, Enabled, RepairValues, Genuine;
    if system.Some? {
      StepKeepsInv(c.s, system.value);
      StepGrows(c.s, system.value);
    }
  }

  lemma StepKeepsClusterInv(c: Cluster, e: ClusterEvent)
    requires ClusterInv(c) && Possible(c, e)
    ensures ClusterInv(StepCluster(c, e))
  {
    var d := StepCluster(c, e);
    StepKeepsSystem(c, e);
    MasterIsGenuine(c.s);
    match e {
      case Pushed(node, op) => PushIsGenuine(c.s, c.stores[node], op);
      case FromMaster(node, key) => ExchangeIsGenuine(c.s, c.s.kv, c.stores[node], key);
      case FromReplica(source, node, key) => ExchangeIsGenuine(c.s, c.stores[source], c.stores[node], key);
      case ReplicaPurge(node, key, bound) => PurgeIsGenuine(c.s, c.stores[node], key, bound);
      case _ =>
    }
    hide StoreInv, LockInv, Exchanged, Apply, StepSystem, Enabled, Genuine;
    forall node | node in d.stores ensures Genuine(d.s, d.stores[node]) {
      GenuineStays(c.s, d.s, d.stores[node]);
    }
  }

  // ---------- runs and reads ----------

  ghost predicate AllPossible(c: Cluster, es: seq<ClusterEvent>)
    decreases |es|
  {
    es == [] || (Possible(c, es[0]) && AllPossible(StepCluster(c, es[0]), es[1..]))
  }

  ghost function RunCluster(c: Cluster, es: seq<ClusterEvent>): Cluster
    requires AllPossible(c, es)
    decreases |es|
  {
    if es == [] then c else RunCluster(StepCluster(c, es[0]), es[1..])
  }

  lemma {:induction false} RunKeepsClusterInv(c: Cluster, es: seq<ClusterEvent>)
    requires ClusterInv(c) && AllPossible(c, es)
    ensures ClusterInv(RunCluster(c, es))
    ensures c.s.committed <= RunCluster(c, es).s.committed
    ensures forall op :: op in c.s.sent ==> op in RunCluster(c, es).s.sent && RunCluster(c, es).s.sent[op] == c.s.sent[op]
    decreases |es|
  {
    hide ClusterInv, StepCluster, Possible;
    if es != [] {
      StepKeepsSystem(c, es[0]);
      StepKeepsClusterInv(c, es[0]);
      RunKeepsClusterInv(StepCluster(c, es[0]), es[1..]);
    }
  }

  ghost predicate StartCluster(c: Cluster) {
    Start(c.s) && forall node {:trigger c.stores[node]} :: node in c.stores ==> c.stores[node] == map[]
  }

  lemma StartHasClusterInv(c: Cluster)
    requires StartCluster(c)
    ensures ClusterInv(c)
  {
    StartHasInv(c.s);
    forall node | node in c.stores ensures Genuine(c.s, c.stores[node]) {
      forall key, v ensures GenuineEntry(c.s, map[], key, v) {
      }
    }
  }

  /** The store of the master or of a replica. */
  function StoreOf(c: Cluster, node: Option<nat>): map<string, seq<KVStoreValue>>
    requires node.Some? ==> node.value in c.stores
  {
    if node.None? then c.s.kv else c.stores[node.value]
  }

  /** What a read of a version finds in a store. */
  function ReadIn(kv: map<string, seq<KVStoreValue>>, key: string, version: nat): Option<Value> {
    var vs := VersionsOf(AbsStore(kv), key);
    if version in vs then Some(vs[version]) else None
  }

  function ReadAt(c: Cluster, node: Option<nat>, key: string, version: nat): Option<Value>
    requires node.Some? ==> node.value in c.stores
  {
    ReadIn(StoreOf(c, node), key, version)
  }

  /**
   * Reads are right wherever they go: a version that was ever the committed one of its key,
   * read now or after any further run at the master or any replica, is not found there or
   * has exactly the bytes of the write whose commit was accepted.
   */
  lemma ReadsReturnCommitted(c: Cluster, es: seq<ClusterEvent>, later: seq<ClusterEvent>, key: string, node: Option<nat>)
    returns (op: nat)
    requires StartCluster(c) && AllPossible(c, es) && AllPossible(RunCluster(c, es), later)
    requires key in RunCluster(c, es).s.p.lm.versionMap
    requires node.Some? ==> node.value in RunCluster(RunCluster(c, es), later).stores
    ensures var d, u := RunCluster(c, es), RunCluster(RunCluster(c, es), later);
            && op in d.s.committed && op in u.s.sent
            && u.s.sent[op].key == key && u.s.sent[op].version == d.s.p.lm.versionMap[key]
            && ReadAt(u, node, key, u.s.sent[op].version) in {None, Some(u.s.sent[op].value)}
  {
    StartHasClusterInv(c);
    RunKeepsClusterInv(c, es);
    var d := RunCluster(c, es);
    RunKeepsClusterInv(d, later);
    var u := RunCluster(d, later);
    op := CommittedWrite(d, key);
    hide RunCluster, AllPossible, StartCluster;
    OnlyOneValue(u, node, op);
  }

  lemma CommittedWrite(d: Cluster, key: string) returns (op: nat)
    requires ClusterInv(d) && key in d.s.p.lm.versionMap
    ensures op in d.s.committed && op in d.s.wrote && op in d.s.sent
    ensures d.s.sent[op].key == key && d.s.sent[op].version == d.s.p.lm.versionMap[key]
  {
    assert VersionCommitted(d.s, key);
    op :| op in d.s.committed && op in d.s.sent && d.s.sent[op].key == key && d.s.sent[op].version == d.s.p.lm.versionMap[key];
  }

  /** No store holds anything else under the version of an accepted write. */
  lemma OnlyOneValue(u: Cluster, node: Option<nat>, op: nat)
    requires ClusterInv(u) && op in u.s.committed && (node.Some? ==> node.value in u.stores)
    ensures op in u.s.sent && ReadAt(u, node, u.s.sent[op].key, u.s.sent[op].version) in {None, Some(u.s.sent[op].value)}
  {
    MasterIsGenuine(u.s);
    var kv := if node.None? then u.s.kv else u.stores[node.value];
    assert Genuine(u.s, kv);
    assert op in u.s.wrote && op in u.s.sent;
    var w := u.s.sent[op];
    assert GenuineEntry(u.s, kv, w.key, w.version);
    hide AbsStore, WellFormed, WriteKept, EntryWritten;
    var vs := VersionsOf(AbsStore(kv), w.key);
    if w.version in vs {
      var o :| o in u.s.wrote && o in u.s.sent && u.s.sent[o] == Write(w.key, w.version, vs[w.version]);
      assert WrittenOnce(u.s, o, op);
    }
  }
  // ---------- what replication achieves ----------

  /** The events that exchange one key: from whom, and with whom. */
  datatype Sides = Sides(source: Option<nat>, target: Option<nat>, key: string)

  function SidesOf(e: ClusterEvent): Option<Sides> {
    match e
    case FromMaster(node, key) => Some(Sides(None, Some(node), key))
    case FromReplica(source, node, key) => Some(Sides(Some(source), Some(node), key))
    case ToMaster(node, key) => Some(Sides(Some(node), None, key))
    case _ => None
  }

  ghost predicate StoresAt(c: Cluster, node: Option<nat>) {
    node.Some? ==> node.value in c.stores
  }

  /** An exchange makes its target answer whatever its source answers, and changes no other answer. */
  lemma ExchangeAnswers(c: Cluster, e: ClusterEvent, node: Option<nat>, key: string, v: nat)
    requires ClusterInv(c) && Possible(c, e) && SidesOf(e).Some? && StoresAt(c, node)
    ensures var d, x := StepCluster(c, e), SidesOf(e).value;
            && StoresAt(d, node) && StoresAt(c, x.source)
            && ReadAt(d, node, key, v) ==
               if node == x.target && key == x.key && ReadAt(c, node, key, v).None? then ReadAt(c, x.source, key, v)
               else ReadAt(c, node, key, v)
  {
    var x := SidesOf(e).value;
    MasterIsGenuine(c.s);
    assert Genuine(c.s, StoreOf(c, x.source)) && Genuine(c.s, StoreOf(c, x.target));
    hide StoreInv, LockInv, GenuineEntry, ReadIn, Exchanged, WellFormed;
    ExchangeReads(StoreOf(c, x.source), StoreOf(c, x.target), x.key, key, v);
  }

  lemma ExchangeReads(from: map<string, seq<KVStoreValue>>, to: map<string, seq<KVStoreValue>>, k: string, key: string, v: nat)
    requires WellFormed(from) && WellFormed(to)
    ensures ReadIn(Exchanged(from, to, k).0, key, v) ==
            if key == k && ReadIn(to, key, v).None? then ReadIn(from, key, v) else ReadIn(to, key, v)
  {
    ExchangeIsUnion(from, to, k);
    VersionsOfAbs(from, key);
    VersionsOfAbs(to, key);
    VersionsOfAbs(Exchanged(from, to, k).0, key);
    hide Exchanged, WellFormed, AbsStore, VersionsOf, ListOf;
  }

  /** A value pushed to a replica answers there if it is newer than all the replica has; no other answer changes. */
  lemma PushAnswers(c: Cluster, node: nat, op: nat, other: Option<nat>, key: string, v: nat)
    requires ClusterInv(c) && Possible(c, Pushed(node, op)) && StoresAt(c, other)
    ensures var d, w := StepCluster(c, Pushed(node, op)), c.s.sent[op];
            && StoresAt(d, other)
            && ReadAt(d, other, key, v) ==
               if other == Some(node) && key == w.key && v == w.version && Newest(AbsStore(c.stores[node]), key, v) then Some(w.value)
               else ReadAt(c, other, key, v)
  {
    var w := c.s.sent[op];
    assert Genuine(c.s, c.stores[node]);
    hide StoreInv, LockInv, GenuineEntry;
    ApplyAt(c.stores[node], Store.Op.Set(w.key, w.version, w.value), key);
    hide Apply, WellFormed, AbsStore, VersionsOf;
  }

  /** A purge takes away a replica's answers below its bound, and no others. */
  lemma PurgeAnswers(c: Cluster, e: ClusterEvent, other: Option<nat>, key: string, v: nat)
    requires ClusterInv(c) && Possible(c, e) && e.ReplicaPurge? && StoresAt(c, other)
    ensures var d := StepCluster(c, e);
            && StoresAt(d, other)
            && ReadAt(d, other, key, v) ==
               if other == Some(e.node) && key == e.key && v < e.bound then None else ReadAt(c, other, key, v)
  {
    assert Genuine(c.s, c.stores[e.node]);
    hide StoreInv, LockInv, GenuineEntry;
    ApplyAt(c.stores[e.node], Store.Op.PurgeVersions(e.key, e.bound), key);
    assert e.key !in c.stores[e.node] ==> Apply(c.stores[e.node], Store.Op.PurgeVersions(e.key, e.bound)).1.Err?;
    hide Apply, WellFormed;
  }

  /** After an exchange with the master a replica answers a read of the committed version, with the committed bytes. */
  lemma RepairedReplicaAnswers(c: Cluster, node: nat, key: string) returns (op: nat)
    requires ClusterInv(c) && node in c.stores && key in c.s.p.lm.versionMap
    ensures op in c.s.committed && op in c.s.sent
    ensures c.s.sent[op].key == key && c.s.sent[op].version == c.s.p.lm.versionMap[key]
    ensures ReadAt(StepCluster(c, FromMaster(node, key)), Some(node), key, c.s.sent[op].version) == Some(c.s.sent[op].value)
  {
    op := CommittedWrite(c, key);
    var w := c.s.sent[op];
    assert VersionCommitted(c.s, key);
    StoredIsOwn(c.s, op);
    OnlyOneValue(c, Some(node), op);
    ExchangeAnswers(c, FromMaster(node, key), Some(node), key, w.version);
    assert ReadAt(c, None, key, w.version) == Some(w.value);
    hide StepCluster, ClusterInv, VersionsOf, AbsStore;
  }
}
