/**
 * lm_client.go: the lock manager's client with its two lock caches, and the coherence of
 * every client's read cache with one primary lock manager.
 */
module ReadCache {
  import opened Wrappers
  import opened LockManager
  import opened LockRuns
  import opened LockReplies

  datatype RLockVal = RLockVal(lockId: string, version: nat)

  datatype WLockVal = WLockVal(lockId: string, version: nat, timeout: nat)

  /** The state of an LManagerClient. */
  datatype Client = Client(rLocks: map<string, RLockVal>, wLocks: map<string, WLockVal>)

  /** The keys a client caches under a lock id. */
  function KeysOf(rLocks: map<string, RLockVal>, lockId: string): set<string> {
    set k | k in rLocks && rLocks[k].lockId == lockId
  }

  /** `InvalidateRLock` where at most one key has the lock id; the empty key counts as not found. */
  function Invalidated(c: Client, lockId: string): Client {
    c.(rLocks := c.rLocks - (KeysOf(c.rLocks, lockId) - {""}))
  }

  ghost predicate AtMostOne(s: set<string>) {
    forall a, b :: a in s && b in s ==> a == b
  }

  function RLocked(c: Client, key: string, lockId: string, version: nat): Client {
    c.(rLocks := c.rLocks[key := RLockVal(lockId, version)])
  }

  function WLocked(c: Client, key: string, lockId: string, version: nat, timeout: nat): Client {
    c.(wLocks := c.wLocks[key := WLockVal(lockId, version, timeout)])
  }

  /** A commit drops the key from both caches. */
  function Released(c: Client, key: string): Client {
    Client(c.rLocks - {key}, c.wLocks - {key})
  }

  class LManagerClient {
    var rLocks: map<string, RLockVal>
    var wLocks: map<string, WLockVal>

    ghost function Value(): Client
      reads this
    {
      Client(rLocks, wLocks)
    }

    constructor ()
      ensures Value() == Client(map[], map[])
    {
      rLocks, wLocks := map[], map[];
    }

    /** `RLock`; the answer is the primary's, None when it could not be found or its reply was lost. */
    method RLock(key: string, forceNoCache: bool, answer: Option<RLockReply>) returns (version: nat, ok: bool)
      modifies `rLocks
      ensures !forceNoCache && key in old(rLocks) ==> ok && version == old(rLocks)[key].version && rLocks == old(rLocks)
      ensures (forceNoCache || key !in old(rLocks)) && (answer.None? || answer.value.NotRegistered?) ==>
        !ok && version == 0 && rLocks == old(rLocks)
      ensures (forceNoCache || key !in old(rLocks)) && answer.Some? && answer.value.Registered? ==>
        ok && version == answer.value.version
        && Value() == RLocked(old(Value()), key, answer.value.lockId, answer.value.version)
    {
      if !forceNoCache && key in rLocks {
        return rLocks[key].version, true;
      }
      if answer.None? || answer.value.NotRegistered? {
        return 0, false;
      }
      rLocks := rLocks[key := RLockVal(answer.value.lockId, answer.value.version)];
      return answer.value.version, true;
    }

    /** `WLock`, which hands on the version of a refusal too. */
    method WLock(key: string, answer: Option<WLockReply>) returns (version: nat, ok: bool)
      modifies `wLocks
      ensures ok <==> answer.Some? && answer.value.Granted?
      ensures version == if answer.None? then 0 else answer.value.version
      ensures Value() == if ok then WLocked(old(Value()), key, answer.value.lockId, version, answer.value.timeout) else old(Value())
    {
      if answer.None? {
        return 0, false;
      }
      if answer.value.Refused? {
        return answer.value.version, false;
      }
      wLocks := wLocks[key := WLockVal(answer.value.lockId, answer.value.version, answer.value.timeout)];
      return answer.value.version, true;
    }

    /** `CommitWLock`; a key missing from the cache fails before the primary is asked. */
    method CommitWLock(key: string, answer: Option<CommitReply>) returns (ok: bool)
      modifies this
      ensures ok <==> key in old(wLocks) && answer == Some(Done)
      ensures Value() == if ok then Released(old(Value()), key) else old(Value())
    {
      if key !in wLocks || answer != Some(Done) {
        return false;
      }
      wLocks := wLocks - {key};
      rLocks := rLocks - {key};
      return true;
    }

    /** `AbortWLock`. */
    method AbortWLock(key: string, answer: Option<CommitReply>) returns (ok: bool)
      modifies `wLocks
      ensures ok <==> key in old(wLocks) && answer == Some(Done)
      ensures wLocks == if ok then old(wLocks) - {key} else old(wLocks)
    {
      if key !in wLocks || answer != Some(Done) {
        return false;
      }
      wLocks := wLocks - {key};
      return true;
    }

    /** The loop of `InvalidateRLock`: the last key met under the lock id, in any order, or "". */
    method LastKeyOf(lockId: string) returns (key: string)
      ensures if KeysOf(rLocks, lockId) == {} then key == "" else key in KeysOf(rLocks, lockId)
    {
      key := "";
      var left := rLocks.Keys;
      ghost var met: set<string> := {};
      while left != {}
        invariant left <= rLocks.Keys
        invariant forall k :: k in KeysOf(rLocks, lockId) ==> k in left || k in met
        invariant met <= KeysOf(rLocks, lockId)
        invariant if met == {} then key == "" else key in met
        decreases |left|
      {
        var k :| k in left;
        if rLocks[k].lockId == lockId {
          key, met := k, met + {k};
        }
        left := left - {k};
      }
    }

    /** `InvalidateRLock`, which takes "" for no key. */
    method InvalidateRLock(lockId: string) returns (ok: bool)
      modifies `rLocks
      ensures ok ==> exists k :: k in KeysOf(old(rLocks), lockId) && k != "" && rLocks == old(rLocks) - {k}
      ensures !ok ==> rLocks == old(rLocks) && (KeysOf(rLocks, lockId) == {} || "" in KeysOf(rLocks, lockId))
      ensures AtMostOne(KeysOf(old(rLocks), lockId)) ==> Value() == Invalidated(old(Value()), lockId)
    {
      var key := LastKeyOf(lockId);
      ghost var keys := KeysOf(rLocks, lockId);
      assert AtMostOne(keys) ==> keys - {""} == if key == "" then {} else {key};
      hide KeysOf, AtMostOne;
      if key == "" {
        assert rLocks - {} == rLocks;
        return false;
      }
      rLocks := rLocks - {key};
      return true;
    }
  }

  // ---------- clients around one primary ----------

  /** What becomes of a client's call: a lost reply leaves the client with an error and the primary changed. */
  datatype Call = NoPrimary | Answered | ReplyLost

  datatype CacheEvent =
    | Read(node: string, key: string, forceNoCache: bool, addr: string, lockId: string, repl: Replication, call: Call)
    | Write(node: string, key: string, version: nat, timeout: nat, lockId: string, repl: Replication, call: Call)
    | CommitWrite(node: string, key: string, version: nat, repl: Replication, call: Call)
    | AbortWrite(node: string, key: string, version: nat, repl: Replication, call: Call)
    | TimePasses(d: nat)
    | TickerFires

  /** One primary, one client per node id, and the read-lock ids given out so far. */
  datatype World = World(p: Primary, clients: map<string, Client>, issued: set<string>)

  /** The client exists and a new read lock's id is fresh. */
  predicate Enabled(w: World, e: CacheEvent) {
    && w.p.lm.currentLM
    && (e.TimePasses? || e.TickerFires? || e.node in w.clients)
    && (e.Read? ==> e.lockId !in w.issued)
  }

  /** What the event makes the primary do, if it gets that far. */
  function Request(w: World, e: CacheEvent): Option<Event>
    requires Enabled(w, e)
  {
    match e
    case Read(node, key, force, addr, lockId, repl, call) =>
      if (!force && key in w.clients[node].rLocks) || call.NoPrimary? then None
      else Some(AskRLock(key, node, addr, lockId, repl))
    case Write(node, key, version, timeout, lockId, repl, call) =>
      if call.NoPrimary? then None else Some(AskWLock(key, version, timeout, node, lockId, repl))
    case CommitWrite(node, key, version, repl, call) =>
      if key !in w.clients[node].wLocks || call.NoPrimary? then None else Some(AskCommit(key, version, repl))
    case AbortWrite(node, key, version, repl, call) =>
      if key !in w.clients[node].wLocks || call.NoPrimary? then None else Some(AskAbort(key, version, repl))
    case TimePasses(d) => Some(Elapse(d))
    case TickerFires => Some(Ticker)
  }

  /** Every client in the copy set is told to drop its lock. */
  function InvalidateAll(clients: map<string, Client>, copySet: CopySet): map<string, Client> {
    map n | n in clients :: if n in copySet then Invalidated(clients[n], copySet[n].lockId) else clients[n]
  }

  /** The clients once the request was handled and its reply delivered or lost. */
  function ClientsAfter(w: World, e: CacheEvent, r: Event): map<string, Client>
    requires Enabled(w, e) && Request(w, e) == Some(r)
  {
    match e
    case Read(node, key, _, _, _, _, call) =>
      var reply := RLockAt(w.p, r).1;
      if call.Answered? && reply.Registered? then
        w.clients[node := RLocked(w.clients[node], key, reply.lockId, reply.version)]
      else w.clients
    case Write(node, key, _, _, _, _, call) =>
      var reply := WLockAt(w.p, r).1;
      if call.Answered? && reply.Granted? then
        w.clients[node := WLocked(w.clients[node], key, reply.lockId, reply.version, reply.timeout)]
      else w.clients
    case CommitWrite(node, key, _, _, call) =>
      var (_, reply, copySet) := CommitAt(w.p, r);
      if reply.Failed? then w.clients
      else
        var told := InvalidateAll(w.clients, copySet);
        if call.Answered? then told[node := Released(told[node], key)] else told
    case AbortWrite(node, key, _, _, call) =>
      if call.Answered? && AbortAt(w.p, r).1.Done? then
        w.clients[node := w.clients[node].(wLocks := w.clients[node].wLocks - {key})]
      else w.clients
    case _ => w.clients
  }

  function StepWorld(w: World, e: CacheEvent): (v: World)
    requires Enabled(w, e)
    ensures v.p.lm.currentLM
  {
    match Request(w, e)
    case None => w
    case Some(r) =>
      World(Step(w.p, r), ClientsAfter(w, e, r), if e.Read? then w.issued + {e.lockId} else w.issued)
  }

  /** A client's cached write lock on a key. */
  function WriteCached(w: World, n: string, k: string): Option<WLockVal> {
    if n in w.clients && k in w.clients[n].wLocks then Some(w.clients[n].wLocks[k]) else None
  }

  /** The client hears that its lock was granted; that its commit or abort went through. */
  predicate HearsGrant(w: World, e: CacheEvent, n: string, k: string)
    requires Enabled(w, e)
  {
    && e.Write? && e.call.Answered? && n == e.node && k == e.key
    && WLockAt(w.p, AskWLock(k, e.version, e.timeout, n, e.lockId, e.repl)).1.Granted?
  }

  predicate HearsRelease(w: World, e: CacheEvent, n: string, k: string)
    requires Enabled(w, e)
  {
    && (e.CommitWrite? || e.AbortWrite?) && e.call.Answered? && n == e.node && k == e.key
    && WriteCached(w, n, k).Some?
    && if e.CommitWrite? then CommitAt(w.p, AskCommit(k, e.version, e.repl)).1 == Done
       else AbortAt(w.p, AskAbort(k, e.version, e.repl)).1 == Done
  }

  /** A client caches a write lock from the answer that grants it to the answer that releases it, whatever else happens. */
  lemma WriteCacheIs(w: World, e: CacheEvent, n: string, k: string)
    requires Enabled(w, e)
    ensures var v := StepWorld(w, e);
            && v.clients.Keys == w.clients.Keys
            && v.p == (if Request(w, e).Some? then Step(w.p, Request(w, e).value) else w.p)
            && WriteCached(v, n, k) ==
               if HearsGrant(w, e, n, k) then
                 var r := WLockAt(w.p, AskWLock(k, e.version, e.timeout, n, e.lockId, e.repl)).1;
                 Some(WLockVal(r.lockId, r.version, r.timeout))
               else if HearsRelease(w, e, n, k) then None
               else WriteCached(w, n, k)
  {
    hide Step, WLockAt, CommitAt, AbortAt, RLockAt;
  }

  /** Once it heard of the release, a client that commits or aborts again fails without asking the primary. */
  lemma SecondReleaseAsksNothing(w: World, e: CacheEvent, again: CacheEvent)
    requires Enabled(w, e) && (e.CommitWrite? || e.AbortWrite?) && HearsRelease(w, e, e.node, e.key)
    requires (again.CommitWrite? || again.AbortWrite?) && again.node == e.node && again.key == e.key
    ensures Enabled(StepWorld(w, e), again) && Request(StepWorld(w, e), again) == None
    ensures StepWorld(StepWorld(w, e), again) == StepWorld(w, e)
  {
    WriteCacheIs(w, e, e.node, e.key);
    hide HearsRelease, HearsGrant, ClientsAfter;
  }

  /** A client's cached read lock on a key. */
  function ReadCached(w: World, n: string, k: string): Option<RLockVal> {
    if n in w.clients && k in w.clients[n].rLocks then Some(w.clients[n].rLocks[k]) else None
  }

  /** The client hears that it was registered as a reader. */
  predicate HearsRegistered(w: World, e: CacheEvent, n: string, k: string)
    requires Enabled(w, e)
  {
    && e.Read? && e.call.Answered? && n == e.node && k == e.key && (e.forceNoCache || ReadCached(w, n, k).None?)
    && RLockAt(w.p, AskRLock(k, n, e.addr, e.lockId, e.repl)).1.Registered?
  }

  /** A commit that went through calls the client's lock on a key back. */
  predicate CalledBack(w: World, e: CacheEvent, n: string, k: string)
    requires Enabled(w, e)
  {
    && e.CommitWrite? && !e.call.NoPrimary? && WriteCached(w, e.node, e.key).Some?
    && CommitAt(w.p, AskCommit(e.key, e.version, e.repl)).1 == Done
    && var called := CommitAt(w.p, AskCommit(e.key, e.version, e.repl)).2;
       n in called && k != "" && ReadCached(w, n, k).Some? && ReadCached(w, n, k).value.lockId == called[n].lockId
  }

  lemma CommitReadCache(w: World, e: CacheEvent, n: string, k: string)
    requires Enabled(w, e) && e.CommitWrite?
    ensures ReadCached(StepWorld(w, e), n, k) ==
            if CalledBack(w, e, n, k) || HearsRelease(w, e, n, k) then None else ReadCached(w, n, k)
  {
    hide Step, CommitAt;
  }

  /** A read lock enters a cache with the answer to its own read, and leaves it only by call-back or the client's own commit. */
  lemma ReadCacheIs(w: World, e: CacheEvent, n: string, k: string)
    requires Enabled(w, e)
    ensures ReadCached(StepWorld(w, e), n, k) ==
            if HearsRegistered(w, e, n, k) then
              Some(RLockVal(e.lockId, RLockAt(w.p, AskRLock(k, n, e.addr, e.lockId, e.repl)).1.version))
            else if CalledBack(w, e, n, k) || (e.CommitWrite? && HearsRelease(w, e, n, k)) then None
            else ReadCached(w, n, k)
  {
    if e.CommitWrite? {
      CommitReadCache(w, e, n, k);
      hide StepWorld, CalledBack, HearsRelease, ReadCached;
    } else {
      if e.Read? {
        RLockReplies(w.p, AskRLock(e.key, e.node, e.addr, e.lockId, e.repl));
      }
      hide Step, WLockAt, CommitAt, AbortAt, RLockAt, Committed, FullyReplicated, HearsRelease;
    }
  }

  /** The version a read hands to its caller. */
  function VersionRead(w: World, e: CacheEvent): Option<nat>
    requires Enabled(w, e) && e.Read?
  {
    var r := Request(w, e);
    if !e.forceNoCache && e.key in w.clients[e.node].rLocks then Some(w.clients[e.node].rLocks[e.key].version)
    else if r.Some? && e.call.Answered? && RLockAt(w.p, r.value).1.Registered? then Some(RLockAt(w.p, r.value).1.version)
    else None
  }

  /** A read answers exactly when the version is cached and no refresh forced, or the client hears that it was registered. */
  lemma ReadAnswersIff(w: World, e: CacheEvent)
    requires Enabled(w, e) && e.Read?
    ensures VersionRead(w, e).Some? <==>
              (!e.forceNoCache && ReadCached(w, e.node, e.key).Some?) || HearsRegistered(w, e, e.node, e.key)
    ensures VersionRead(w, e).Some? ==>
              ReadCached(StepWorld(w, e), e.node, e.key).Some?
              && VersionRead(w, e).value == ReadCached(StepWorld(w, e), e.node, e.key).value.version
  {
    ReadCacheIs(w, e, e.node, e.key);
    hide StepWorld, RLockAt;
  }

  // ---------- coherence ----------

  /** A cached version is the committed one, and its lock id is in the key's copy set for that client. */
  ghost predicate Current(s: State, n: string, k: string, v: RLockVal) {
    && v.version == Committed(s.versionMap, k) != 0
    && k in s.rLocks && n in s.rLocks[k] && s.rLocks[k][n].lockId == v.lockId
  }

  ghost predicate KeyCoherent(w: World, n: string, k: string) {
    n in w.clients && k in w.clients[n].rLocks ==>
      w.clients[n].rLocks[k].lockId in w.issued && Current(w.p.lm, n, k, w.clients[n].rLocks[k])
  }

  /** Coherence: every version that any client caches is current. */
  ghost predicate Coherent(w: World) {
    forall n, k {:trigger KeyCoherent(w, n, k)} :: KeyCoherent(w, n, k)
  }

  /** No client caches two keys under one lock id. */
  ghost predicate DistinctIds(w: World) {
    forall n, id {:trigger KeysOf(w.clients[n].rLocks, id)} :: n in w.clients ==> AtMostOne(KeysOf(w.clients[n].rLocks, id))
  }

  /** What the runs of LockRuns ask of a request. */
  ghost predicate Admissible(w: World, e: CacheEvent) {
    && Enabled(w, e)
    && (Request(w, e).Some? ==> Representable(Request(w, e).value) && !GrantWraps(w.p, Request(w, e).value))
  }

  /** A refresh of a cached key whose registration succeeds but whose reply is lost. */
  predicate RefreshLost(w: World, e: CacheEvent)
    requires Enabled(w, e)
  {
    && e.Read? && e.forceNoCache && e.call.ReplyLost? && e.key in w.clients[e.node].rLocks
    && RLockAt(w.p, AskRLock(e.key, e.node, e.addr, e.lockId, e.repl)).1.Registered?
  }

  /** The client keeps the empty key cached through the commit: it is not the committer, or is but got no answer. */
  predicate KeepsEmptyKey(w: World, e: CacheEvent, n: string) {
    && n in w.clients && "" in w.clients[n].rLocks
    && e.CommitWrite? && !(e.call.Answered? && n == e.node)
  }

  /** An accepted commit of the empty key, which `InvalidateRLock` takes for no key, while some client keeps it cached. */
  ghost predicate StrandsEmptyKey(w: World, e: CacheEvent)
    requires Enabled(w, e)
  {
    && e.CommitWrite? && e.key == "" && Request(w, e).Some? && CommitAt(w.p, Request(w, e).value).1.Done?
    && exists n :: KeepsEmptyKey(w, e, n)
  }

  /** The two kinds of step that leave a stale entry behind. */
  ghost predicate Breaks(w: World, e: CacheEvent)
    requires Enabled(w, e)
  {
    RefreshLost(w, e) || StrandsEmptyKey(w, e)
  }

  /** What a request does to the read locks and the versions they are for. */
  lemma StepReads(p: Primary, r: Event)
    requires p.lm.currentLM && HeldAbove(p.lm)
    ensures var q := Step(p, r);
            if r.AskRLock? && RLockAt(p, r).1.Registered? then
              && q.lm.versionMap == p.lm.versionMap
              && RLockAt(p, r).1 == Registered(r.lockId, Committed(p.lm.versionMap, r.key))
              && RLockAt(p, r).1.version != 0
              && r.key in q.lm.rLocks && r.nodeId in q.lm.rLocks[r.key] && q.lm.rLocks[r.key][r.nodeId].lockId == r.lockId
              && (forall k, n :: (k, n) != (r.key, r.nodeId) && k in p.lm.rLocks && n in p.lm.rLocks[k] ==>
                    k in q.lm.rLocks && n in q.lm.rLocks[k] && q.lm.rLocks[k][n] == p.lm.rLocks[k][n])
            else if r.AskCommit? && CommitAt(p, r).1.Done? then
              && q.lm.versionMap == p.lm.versionMap[r.key := r.version]
              && Committed(p.lm.versionMap, r.key) < r.version
              && (r.version != 1 && r.key in p.lm.rLocks ==> CommitAt(p, r).2 == p.lm.rLocks[r.key])
              && (forall k :: k != r.key && k in p.lm.rLocks ==> k in q.lm.rLocks && q.lm.rLocks[k] == p.lm.rLocks[k])
            else q.lm.versionMap == p.lm.versionMap && q.lm.rLocks == p.lm.rLocks
  {
  }

  lemma ReadKeepsKey(w: World, e: CacheEvent, n: string, k: string)
    requires Admissible(w, e) && HeldAbove(w.p.lm) && e.Read? && !RefreshLost(w, e)
    requires KeyCoherent(w, n, k)
    ensures KeyCoherent(StepWorld(w, e), n, k)
  {
    if Request(w, e).Some? {
      StepReads(w.p, Request(w, e).value);
      hide Step, RLockAt, HeldAbove;
    }
  }

  /** The version-1 commit may skip the invalidation: nothing below version 1 is ever cached. */
  lemma CommitDropsKey(w: World, e: CacheEvent, n: string)
    requires Admissible(w, e) && HeldAbove(w.p.lm) && e.CommitWrite? && Request(w, e).Some?
    requires e.key != "" && n in w.clients && KeyCoherent(w, n, e.key)
    requires CommitAt(w.p, Request(w, e).value).1.Done?
    ensures n in StepWorld(w, e).clients && e.key !in StepWorld(w, e).clients[n].rLocks
  {
    var r := Request(w, e).value;
    StepReads(w.p, r);
    hide Step, CommitAt, HeldAbove;
    if e.key in w.clients[n].rLocks {
      assert r.version != 1;
      assert e.key !in Invalidated(w.clients[n], CommitAt(w.p, r).2[n].lockId).rLocks;
    }
  }

  lemma EmptyKeyDropped(w: World, e: CacheEvent, n: string)
    requires Enabled(w, e) && e.CommitWrite? && e.key == "" && Request(w, e).Some? && CommitAt(w.p, Request(w, e).value).1.Done?
    requires n in w.clients && !KeepsEmptyKey(w, e, n)
    ensures n in StepWorld(w, e).clients && "" !in StepWorld(w, e).clients[n].rLocks
  {
    hide Step, CommitAt;
  }

  /** A client that keeps the empty key is left with an older version than the one committed. */
  lemma KeptEmptyKeyIsStale(w: World, e: CacheEvent, n: string)
    requires Admissible(w, e) && HeldAbove(w.p.lm) && StrandsEmptyKey(w, e) && KeepsEmptyKey(w, e, n)
    requires KeyCoherent(w, n, "")
    ensures var u := StepWorld(w, e);
            && n in u.clients && "" in u.clients[n].rLocks
            && u.clients[n].rLocks[""].version < Committed(u.p.lm.versionMap, "")
  {
    StepReads(w.p, Request(w, e).value);
    hide Step, CommitAt, HeldAbove;
  }

  lemma CommitKeepsKey(w: World, e: CacheEvent, n: string, k: string)
    requires Admissible(w, e) && HeldAbove(w.p.lm) && e.CommitWrite? && !StrandsEmptyKey(w, e)
    requires KeyCoherent(w, n, k)
    ensures KeyCoherent(StepWorld(w, e), n, k)
  {
    var v := StepWorld(w, e);
    if Request(w, e).Some? && n in v.clients && k in v.clients[n].rLocks {
      StepCaches(w, e, n, k);
      var r := Request(w, e).value;
      if CommitAt(w.p, r).1.Done? && k == e.key {
        if k == "" {
          EmptyKeyDropped(w, e, n);
        } else {
          CommitDropsKey(w, e, n);
        }
      } else {
        StepReads(w.p, r);
        hide Step, CommitAt, HeldAbove, ClientsAfter;
      }
    }
  }

  lemma OtherKeepsKey(w: World, e: CacheEvent, n: string, k: string)
    requires Admissible(w, e) && HeldAbove(w.p.lm) && !e.Read? && !e.CommitWrite?
    requires KeyCoherent(w, n, k)
    ensures KeyCoherent(StepWorld(w, e), n, k)
  {
    if Request(w, e).Some? {
      StepReads(w.p, Request(w, e).value);
      hide Step, WLockAt, AbortAt, HeldAbove;
    }
  }

  lemma LostRefreshBreaksKey(w: World, e: CacheEvent)
    requires Admissible(w, e) && HeldAbove(w.p.lm) && RefreshLost(w, e)
    requires KeyCoherent(w, e.node, e.key)
    ensures !KeyCoherent(StepWorld(w, e), e.node, e.key)
  {
  }

  lemma StepKeepsDistinctIds(w: World, e: CacheEvent)
    requires Enabled(w, e) && DistinctIds(w) && Coherent(w)
    ensures DistinctIds(StepWorld(w, e))
  {
    var v := StepWorld(w, e);
    forall n, id | n in v.clients ensures AtMostOne(KeysOf(v.clients[n].rLocks, id)) {
      assert AtMostOne(KeysOf(w.clients[n].rLocks, id));
      forall a, b | a in KeysOf(v.clients[n].rLocks, id) && b in KeysOf(v.clients[n].rLocks, id) ensures a == b {
        StepCaches(w, e, n, a);
        StepCaches(w, e, n, b);
        assert KeyCoherent(w, n, a) && KeyCoherent(w, n, b);
        var before := w.clients[n].rLocks;
        hide StepWorld, Request;
        if a in before && before[a].lockId == id && b in before && before[b].lockId == id {
          assert a in KeysOf(before, id) && b in KeysOf(before, id);
        }
      }
    }
  }

  /** A key cached after a step was cached before it under the same lock, or just read under the fresh one. */
  lemma StepCaches(w: World, e: CacheEvent, n: string, k: string)
    requires Enabled(w, e)
    requires n in StepWorld(w, e).clients && k in StepWorld(w, e).clients[n].rLocks
    ensures n in w.clients
    ensures var v := StepWorld(w, e).clients[n].rLocks[k];
            || (k in w.clients[n].rLocks && w.clients[n].rLocks[k] == v)
            || (e.Read? && n == e.node && k == e.key && v.lockId == e.lockId)
  {
    hide Step, CommitAt, WLockAt, AbortAt;
  }

  lemma BreakingStepBreaks(w: World, e: CacheEvent)
    requires Admissible(w, e) && HeldAbove(w.p.lm) && Coherent(w) && Breaks(w, e)
    ensures !Coherent(StepWorld(w, e))
  {
    if RefreshLost(w, e) {
      assert KeyCoherent(w, e.node, e.key);
      LostRefreshBreaksKey(w, e);
    } else {
      var n :| KeepsEmptyKey(w, e, n);
      assert KeyCoherent(w, n, "");
      KeptEmptyKeyIsStale(w, e, n);
      hide StepWorld, HeldAbove;
      assert !KeyCoherent(StepWorld(w, e), n, "");
    }
  }

  /**
   * One step keeps every cached key current exactly when it is neither a refresh whose
   * reply is lost nor a commit of the empty key that some client keeps cached.
   */
  lemma StepCoherentIff(w: World, e: CacheEvent)
    requires Admissible(w, e) && HeldAbove(w.p.lm) && Coherent(w)
    ensures Coherent(StepWorld(w, e)) <==> !Breaks(w, e)
  {
    var v := StepWorld(w, e);
    if Breaks(w, e) {
      BreakingStepBreaks(w, e);
    } else {
      hide StepWorld;
      forall n, k ensures KeyCoherent(v, n, k) {
        assert KeyCoherent(w, n, k);
        if e.Read? {
          ReadKeepsKey(w, e, n, k);
        } else if e.CommitWrite? {
          CommitKeepsKey(w, e, n, k);
        } else {
          OtherKeepsKey(w, e, n, k);
        }
      }
    }
  }

  // ---------- runs ----------

  /** Every event of the run is admissible when it happens. */
  ghost predicate AllAdmissible(w: World, es: seq<CacheEvent>)
    decreases |es|
  {
    es == [] || (Admissible(w, es[0]) && AllAdmissible(StepWorld(w, es[0]), es[1..]))
  }

  ghost predicate AlwaysCoherent(w: World, es: seq<CacheEvent>)
    requires AllAdmissible(w, es)
    decreases |es|
  {
    Coherent(w) && DistinctIds(w) && (es == [] || AlwaysCoherent(StepWorld(w, es[0]), es[1..]))
  }

  /** No step of the run breaks coherence. */
  ghost predicate NothingBreaks(w: World, es: seq<CacheEvent>)
    requires AllAdmissible(w, es)
    decreases |es|
  {
    es == [] || (!Breaks(w, es[0]) && NothingBreaks(StepWorld(w, es[0]), es[1..]))
  }

  lemma StepKeepsPrimary(w: World, e: CacheEvent)
    requires Admissible(w, e) && InRange(w.p.lm) && HeldAbove(w.p.lm)
    ensures InRange(StepWorld(w, e).p.lm) && HeldAbove(StepWorld(w, e).p.lm)
  {
    if Request(w, e).Some? {
      StepInRange(w.p, Request(w, e).value);
      StepHeldAboveIff(w.p, Request(w, e).value);
    }
  }

  /**
   * Over any run of reads, writes, commits, aborts, expiries, failed replications and lost
   * replies, every cached key stays current throughout iff no step loses the reply of a
   * refresh or commits the empty key over a cached copy.
   */
  lemma {:induction false} RunCoherentIff(w: World, es: seq<CacheEvent>)
    requires InRange(w.p.lm) && HeldAbove(w.p.lm) && Coherent(w) && DistinctIds(w) && AllAdmissible(w, es)
    ensures AlwaysCoherent(w, es) <==> NothingBreaks(w, es)
    decreases |es|
  {
    hide InRange, HeldAbove, Coherent, DistinctIds, StepWorld, Breaks, Request;
    if es != [] {
      StepKeepsPrimary(w, es[0]);
      StepCoherentIff(w, es[0]);
      StepKeepsDistinctIds(w, es[0]);
      if Coherent(StepWorld(w, es[0])) {
        RunCoherentIff(StepWorld(w, es[0]), es[1..]);
      }
    }
  }

  /** In a coherent world a read of any key, cached or not, gives the committed version. */
  lemma ReadsAreCurrent(w: World, e: CacheEvent)
    requires Admissible(w, e) && HeldAbove(w.p.lm) && Coherent(w) && e.Read?
    ensures VersionRead(w, e).Some? ==> VersionRead(w, e).value == Committed(w.p.lm.versionMap, e.key) != 0
  {
    assert KeyCoherent(w, e.node, e.key);
    if Request(w, e).Some? {
      StepReads(w.p, Request(w, e).value);
      hide Step, RLockAt, HeldAbove;
    }
  }

  // ---------- why the conditions are needed ----------

  /** A commit leaves a cached version stale when the copy set has the key under another lock id. */
  lemma UnregisteredGoesStale(w: World, c: CacheEvent, n: string)
    requires Admissible(w, c) && HeldAbove(w.p.lm) && c.CommitWrite? && c.node != n && Request(w, c).Some?
    requires CommitAt(w.p, Request(w, c).value).1.Done?
    requires n in w.clients && c.key in w.clients[n].rLocks
    requires w.clients[n].rLocks[c.key].version == Committed(w.p.lm.versionMap, c.key) != 0
    requires c.key in w.p.lm.rLocks && n in w.p.lm.rLocks[c.key]
    requires w.p.lm.rLocks[c.key][n].lockId != w.clients[n].rLocks[c.key].lockId
    ensures var u := StepWorld(w, c);
            && n in u.clients && c.key in u.clients[n].rLocks
            && u.clients[n].rLocks[c.key].version < Committed(u.p.lm.versionMap, c.key)
  {
  }

  /** After a lost refresh, another client's commit leaves the first one with an old version. */
  lemma LostRefreshGoesStale(w: World, e: CacheEvent, c: CacheEvent)
    requires Admissible(w, e) && HeldAbove(w.p.lm) && InRange(w.p.lm) && Coherent(w) && RefreshLost(w, e)
    requires var v := StepWorld(w, e);
             && c.CommitWrite? && c.node != e.node && c.key == e.key && Admissible(v, c) && Request(v, c).Some?
             && CommitAt(v.p, Request(v, c).value).1.Done?
    ensures var u := StepWorld(StepWorld(w, e), c);
            && e.node in u.clients && e.key in u.clients[e.node].rLocks
            && u.clients[e.node].rLocks[e.key].version < Committed(u.p.lm.versionMap, e.key)
  {
    var v := StepWorld(w, e);
    assert KeyCoherent(w, e.node, e.key);
    StepReads(w.p, Request(w, e).value);
    StepKeepsPrimary(w, e);
    hide Step, RLockAt, CommitAt, HeldAbove, InRange;
    UnregisteredGoesStale(v, c, e.node);
  }

  /** A client that caches the empty key keeps it across another client's commit. */
  lemma EmptyKeyGoesStale(w: World, c: CacheEvent, n: string)
    requires HeldAbove(w.p.lm) && Coherent(w) && n in w.clients && "" in w.clients[n].rLocks
    requires c.CommitWrite? && c.node != n && c.key == "" && Admissible(w, c) && Request(w, c).Some?
    requires CommitAt(w.p, Request(w, c).value).1.Done?
    ensures StrandsEmptyKey(w, c)
    ensures var u := StepWorld(w, c);
            && n in u.clients && "" in u.clients[n].rLocks
            && u.clients[n].rLocks[""].version < Committed(u.p.lm.versionMap, "")
  {
    assert KeyCoherent(w, n, "") && KeepsEmptyKey(w, c, n);
    KeptEmptyKeyIsStale(w, c, n);
  }
}
