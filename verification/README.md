# A verified model of buddystore

buddystore is a Chord ring that carries a versioned key/value store and a replicated lock
manager. This project models the three layers in Dafny and proves what they promise.

**Routing and stabilisation.** `Ids` takes node ids as byte strings and shows that the
interval tests, the distance and the finger offsets of util.go and iter_closest.go mean what
they should as numbers; from there on ids are positions on a circle of size `m` (`RingMath`).
`ClosestPreceding` is the iterator over known nodes, `Lookup` the recursive lookup with its
fallbacks, `Hops` its cost, `Vnodes` the stabilisation steps of one node, `Fingers` finger
repair, `LocalRing` the links of freshly created vnodes and `Ring.Lookup`, `Leaving` a node
that leaves. `Links` is the protocol reduced to first successors and predecessors, with its
invariant, its measure and its states of rest; `Stabilise` runs the full tables of a whole
ring and shows that every step is a step of `Links`. `Settling` follows the successor lists of
a ring at rest round by round, `Routing` the repair of its fingers, and `FastRing` both inside a
run, up to lookups in hashBits calls.

**Lock manager.** `LockManager` has the handlers, the operation log and its replay as a class
and as functions on its state; `LockReplies` says what each reply of it is worth, and `LogReplay`
reads off a log what it replays to. `LockRuns` takes one primary through arbitrary runs, `Failover` adds a backup, arrivals in any order and the
backup's later term as primary, `Terms` any number of failovers, and `ReadCache` the clients with
their caches.

**Store and repair.** `Store` is the list of versions per key and the map of maps it refines,
`AntiEntropy` the exchange that repairs a replica, `Placement` the choice of who sends what to
whom. `Client` and `EndToEnd` tie locks and store together: what the version map names is
stored, with the bytes of the one writer whose commit was accepted. `Replicas` adds the other
stores, so that a read of a committed version is right wherever it goes, and is answered once the
replica exchanged the key with its master.

Objects that the program updates in place are classes here (`Iterator`, `LocalVnode`,
`LManager`, `LManagerClient`, `KVStore`); each of their methods is proved against a function on
the object's value, and the theorems are about those functions. A remote call is a step that
succeeds, fails, or takes effect and then reports failure. The clock, fresh lock ids, hashes,
peers' replies and the fate of messages are parameters.

## What is false, and exactly when

* A finger offset with leading zero bytes is looked up in the wrong place: `Ids.OffsetRightIffFullWidth`.
* `setLocalPredecessors` wraps wrongly but for the first vnode: `LocalRing.LocalPredecessorRightIff`.
* A lookup fails although every peer is up when a lone local vnode is asked for its own id:
  `LocalRing.LookupFailsIff`.
* A node that leaves strands a predecessor that knew no second successor: `Leaving.SkipsToNextIff`.
* Asking for "the next version" at the largest uint grants version 0, and committing it takes
  the key back: `LockRuns.RunHeldAboveIff`, `LockRuns.WrappedCommitGoesBack`.
* Exactly two kinds of step leave a stale version in a read cache: a forced refresh of a cached
  key whose reply is lost, and a commit of the empty key while a client other than the answered
  committer caches it, since `InvalidateRLock` takes the empty key for none:
  `ReadCache.StepCoherentIff`, `ReadCache.RunCoherentIff`.
* A backup's log sorts operation numbers but not operations, so arrivals that overtake each other
  can leave another state. A log leaves a key locked iff the last entry that changes it is a WRITE,
  and at the version of its last COMMIT, which decides between any two orders:
  `LogReplay.ReplayIsLastEntries`, `Failover.ArrivalOrdersAgreeIff`; a commit that overtakes its
  lock leaves the lock behind, `Failover.OvertakenLockStays`. An arrival numbered below the
  first one is out of the log's range: `Failover.DeliverAllIff`.
* A backup that takes over may hold a lock that is not above the committed version, after a commit
  that reached it but failed at the primary: `Failover.TakeOverMayHoldCommitted`. It does not
  exactly when, of the entries that reached it, each key's last change is above its last COMMIT if
  it is a WRITE: `Failover.RunHandsOverHeldAboveIff`.
* A backup's commit index need not stop at a missing number. An append keeps it below the first
  one exactly when no gap above it is followed by two numbers in sequence:
  `LockManager.CommitIndexStopsIff`, over all arrivals `Failover.IndexStaysContiguousIff`. Numbers
  1, 2, 4 and 5 take it to number 4, `Failover.IndexPassesMissingNumber`, and a run whose third
  replication fails does that, `Failover.RunPassesMissingNumber`.
* Replication rounds never bring a key back to its owner when only its second or later
  replicas hold it, nor, in a ring of two nodes, when only the other node does:
  `Placement.RoundsHealIff`.
* A backup whose log starts above entry 1 runs out of its log's range on the first entry of a new
  term: `LockReplies.LaterLogPanics`.

## Model

| member | source | states |
|---|---|---|
| Ids.CompareIsNumeric | util.go:27-49 | On ids of one width, lexicographic byte order is numeric order, and equal numbers are equal ids. |
| Ids.DistanceIsDist | iter_closest.go:110-127 | The big-integer distance is the forward distance on the circle. |
| Ids.IntervalsAreDistances | util.go:27-49 | `between` and `betweenRightIncl` hold iff the key's distance from the left end is positive and below (at most) the arc's length; equal ends make both empty. |
| Ids.OffsetRightIffFullWidth | util.go:52-79 | The key made from id + 2^exp compares with every id as that number iff no leading zero byte was dropped (or it is zero). |
| Ids.StrippedOffsetMissed | util.go:52-79 | A shorter offset key misses the arc that ends at its own number. |
| Ids.OffsetComparesAsKeyOf | util.go:52-79 | In the interval tests any offset key compares as its number padded with zero bytes at the end. |
| Ids.StrippedOffsetExample | util.go:52-79 | A two-byte id and exponent for which the offset key falls in the wrong arc. |
| RingMath.DistIsMod | iter_closest.go:110-127 | The forward distance is the difference modulo the circle's size. |
| RingMath.BetweenIsDistance | util.go:27-49 | The interval tests on positions are comparisons of forward distances. |
| RingMath.OwnerIsNearestClockwise | chord.go:385-410 | The first ring node at or after a key is the nearest clockwise, and the only one at that distance. |
| RingMath.OwnerIsArcEnd | vnode.go:409-411 | A key lies in the arc from a node to the next iff the next node is its owner. |
| ClosestPreceding.Iterator.constructor | iter_closest.go:15-21 | The iterator starts at the last successor and the last finger with nothing yielded. |
| ClosestPreceding.Iterator.Next | iter_closest.go:23-96 | One call takes the iterator's fields through one step of the merge and returns its node. |
| ClosestPreceding.YieldsExactly | iter_closest.go:23-96 | Run to the end, it yields each distinct known node strictly between the node and the key once, and nothing else. |
| ClosestPreceding.NilForever | iter_closest.go:23-96 | After the first nil it returns nil for good. |
| ClosestPreceding.StepTakesCloserHead | iter_closest.go:23-107 | Whatever the tables hold, a call returns the one of their two heads with the smaller distance to the key, the successor list's at equal distance, leaves that table below it and keeps the other's head. |
| ClosestPreceding.StepIsClosest | iter_closest.go:99-107 | On tables in ring order each node returned is the closest to the key of those left. |
| ClosestPreceding.YieldsInOrder | iter_closest.go:23-107 | On tables in ring order the nodes come in strictly increasing distance to the key. |
| Nodes.Known | vnode.go:517-524 | One past the last filled successor slot. |
| Lookup.KnownSuccessors | vnode.go:517-524 | The loop computes that count. |
| Lookup.FindSuccessors | vnode.go:403-448 | The recursive lookup with its fallbacks answers and counts calls as the reference function does, and terminates. |
| Lookup.AskClosest | vnode.go:413-429 | The loop over closest preceding nodes tries each reachable one in the iterator's order until one answers. |
| Lookup.AskLaterSuccessors | vnode.go:431-444 | The last resort answers iff some non-immediate successor has the key in its arc and n entries known from there on, and then with the n entries from the first such one. |
| Lookup.CandidatesAreCloser | vnode.go:413-428 | Every node asked is a member strictly closer to the key, so the recursion ends. |
| Lookup.FindCases | vnode.go:403-448 | An answer is the node's own, a reachable closer peer's, or the last resort's. |
| Lookup.LookupEndsAtArc | vnode.go:403-448 | With every peer reachable a lookup never fails and returns the list of the node whose arc holds the key, whatever the tables. |
| Lookup.LookupRefinesScan | vnode.go:403-448 | With successor lists in ring order, any fingers and any unreachable peers, the filled entries of an answer are the consecutive ring nodes from the key's owner on. |
| Lookup.FindAnswersIff | vnode.go:403-448 | A node whose arc holds the key answers with its own list; any other answers iff a reachable closest preceding node does, and then as the first of them, or else iff its last resort does. |
| Lookup.KnownOwnerAnswers | vnode.go:431-444 | Whatever peers are down, a node with an ideal list answers if it knows n nodes from the key's owner on. |
| Lookup.FindCalls | vnode.go:409-429 | A lookup costs no calls when the node's own arc has the key; otherwise one for each node asked up to the first that answers, and those that they make in turn. |
| Hops.LookupsAgree | chord.go:385-410 | Lookups of one key from any two nodes succeed and name the same owner. |
| Hops.FirstHopIsFarthest | iter_closest.go:23-107 | With right fingers the first node asked is at least as far round as any known node before the key. |
| Hops.HopHalves | vnode.go:403-428 | One hop brings the distance to the key's predecessor below the next lower power of two. |
| Hops.HopBound | vnode.go:403-428 | With right fingers and every peer reachable a lookup forwards at most hashBits times. |
| Vnodes.LocalVnode.constructor | vnode.go:17-40 | A new vnode has empty tables of the configured sizes. |
| Vnodes.LocalVnode.KnownSuccessors | vnode.go:517-524 | The count over the vnode's own array. |
| Vnodes.LocalVnode.CheckNewSuccessor | vnode.go:125-173 | In place: skip leading dead successors, then put a live closer node in front; and which of the three outcomes is reported. |
| Vnodes.LocalVnode.SkipDeadPrefix | vnode.go:139-158 | The skipping loop leaves the list without its leading dead entries and says whether the first is alive. |
| Vnodes.SkipDeadIsExact | vnode.go:132-159 | Exactly the leading dead entries go, the rest keep their order, slot 0 stays filled, and only the last known entry is left when all are dead. |
| Vnodes.CheckedListIs | vnode.go:161-168 | A reachable closer node reported by the successor goes in front and every entry moves down one slot, so that only the last can be lost; without one the list is what skipping left. |
| Vnodes.AdoptedListIs | vnode.go:214-232 | Slot j + 1 becomes the successor's slot j up to the first nil, the node itself or the end of the room; slot 0 and the slots after stay. |
| Vnodes.FixedNodeIs | vnode.go:304-346 | A repair writes the node found into exactly the run of fingers from last_finger on that it covers, and last_finger moves past them or back to 0. |
| Vnodes.SkippedListIs | vnode.go:496-514 | A leaving first successor goes, every later entry moves up one slot and the last slot becomes nil; another first successor leaves the list alone. |
| Vnodes.LocalVnode.Notify | vnode.go:237-301 | A caller becomes the predecessor iff there was none or it lies between the old one and the node; the successors come back. |
| Vnodes.LocalVnode.AdoptSuccessors | vnode.go:214-232 | The successor's list is taken over from slot 1 on, up to a nil, the node itself or the room there is. |
| Vnodes.LocalVnode.FixFingerTable | vnode.go:304-346 | A repair writes the found node to last_finger and on, and moves last_finger past them or back to 0. |
| Vnodes.LocalVnode.SkipAhead | vnode.go:326-337 | The skip loop fills exactly the following fingers whose offsets the node still covers. |
| Vnodes.LocalVnode.SkipSuccessor | vnode.go:496-514 | A matching first successor is removed and the list moves up, in place. |
| Vnodes.LocalVnode.ClearPredecessor | vnode.go:476-493 | The predecessor is dropped iff it is the leaving node. |
| Fingers.SameNodeCoversLater | vnode.go:326-337 | A node right for one finger is right for a later one whose offset it covers. |
| Fingers.RepairWritesTrueFingers | vnode.go:304-346 | Every entry a repair writes, skipped-ahead ones included, is the first node at or after its offset, given full width. |
| Fingers.RepairFinds | vnode.go:304-318 | On an ideal ring the repair's lookup finds the owner of the key it asks for. |
| Fingers.RepairExtends | vnode.go:304-346 | One repair extends the right prefix of the table and leaves last_finger at its end, or 0 when it is whole. |
| Fingers.SweepRepairsTable | vnode.go:304-346 | From finger 0 at most hashBits repairs return last_finger to 0 with the whole table right. |
| LocalRing.SetLocalSuccessors | ring.go:127-135 | The nested loops fill each vnode's array with the vnodes that follow it. |
| LocalRing.LinkedRingIsIdeal | ring.go:127-135 | Freshly linked vnodes in sorted order form a ring whose successor lists are prefixes of ring order. |
| LocalRing.LinkOne | ring.go:131-133 | The inner loop fills one vnode's slots. |
| LocalRing.SetLocalPredecessors | ring.go:138-156 | What the predecessor loops write into every vnode's array, wrapped case included. |
| LocalRing.LinkBack | ring.go:146-152 | The inner loop fills one vnode's slots. |
| LocalRing.LocalPredecessorRightIff | ring.go:147-150 | A predecessor slot is right iff the count does not pass the start of the list or the vnode is the first. |
| LocalRing.LinkedCounts | ring.go:127-156 | Every vnode gets min(s, n - 1) successors and min(s + 1, n - 1) predecessors, in the first slots. |
| LocalRing.NearestVnode | ring.go:73-81 | The downward scan returns the last vnode below the key, else the last vnode. |
| LocalRing.NearestPrecedesKey | ring.go:73-81 | That vnode is the closest before the key, and is at the key only if it is alone. |
| LocalRing.LookupKey | chord.go:385-410 | `Lookup` refuses too large n, starts at the nearest vnode and trims trailing nils. |
| LocalRing.TrimKeepsFront | chord.go:406-409 | Trimming keeps exactly the filled front of an answer. |
| LocalRing.OwnKeyFails | vnode.go:403-448 | A node asked for its own id always answers with an error. |
| LocalRing.LookupFailsIff | chord.go:385-410 | On an ideal ring with all peers up a lookup fails iff a lone local vnode is asked for its own id; otherwise it returns the owners in order. |
| Links.CheckKeeps | vnode.go:161-172 | The successor swap keeps the invariant and every reachable pair. |
| Links.NotifyKeeps | vnode.go:237-297 | So does a notification: the new predecessor's successors lead to its holder inside the arc. |
| Links.JoinKeeps | chord.go:282-298 | So does a join, which takes over the successor of the node whose arc it falls in. |
| Links.CoreReached | vnode.go:125-301 | Under the invariant every node reaches every member of the initial ring. |
| Links.QuiescentIffIdeal | vnode.go:161-297 | No step changes a link iff the links form one ordered cycle with matching predecessors. |
| Links.IdealIsSortedCycle | vnode.go:161-297 | That cycle visits the members in sorted order, once. |
| Links.StabiliseLowers | vnode.go:161-297 | A step that changes a link lowers the summed distances (a missing predecessor counts a whole turn). |
| Links.ChangesAreBounded | vnode.go:161-297 | A sequence of changing steps is no longer than that measure. |
| Links.CanStabilise | vnode.go:125-301 | From every reachable state some stabilisation steps lead to the ideal ring. |
| Stabilise.CheckRefines | vnode.go:125-173 | On full tables, `checkNewSuccessor` moves the links as the reduced step does and keeps the tables well formed. |
| Stabilise.NotifyRefines | vnode.go:204-301 | So does `notifySuccessor` with `Notify` and the adopted list. |
| Stabilise.JoinRefines | chord.go:282-298 | So does a join, whose lookup never fails; the new node takes over the whole list of the node whose arc it lands in, with empty tables else. |
| Stabilise.FixRefines | vnode.go:304-346 | Finger repair moves no link. |
| Stabilise.StepKeepsInv | vnode.go:125-346 | Every step of the full state keeps the invariant and all reachability. |
| Stabilise.RunKeepsInv | vnode.go:125-346 | The invariant holds in every state of every run from a locally built ring. |
| Stabilise.ReachabilityIsNeverLost | vnode.go:125-301 | What a node reaches along first successors it reaches ever after, through any run. |
| Stabilise.InitialMembersAlwaysReached | chord.go:282-305 | In every state every node, joined ones included, reaches every initial member. |
| Stabilise.JoinNeverFails | chord.go:282-298 | In every state of every run any node can join through any member. |
| Stabilise.AtRestIffIdeal | vnode.go:125-301 | A state of a run changes no link any more iff it is the ideal ring of all its members. |
| Stabilise.LinksSettle | vnode.go:161-297 | Between joins, however long the run, only a number of steps bounded at its start changes a link. |
| Settling.AdoptedIsRight | vnode.go:214-232 | A list taken over from a successor whose list is right for d slots is right for d + 1. |
| Settling.StepExtends | vnode.go:125-346 | At rest, no step but a join spoils the right front of any list, and a notification extends the notifier's. |
| Settling.ListsSettle | vnode.go:204-234 | In a run at rest, t rounds of notifications later the first t + 1 slots of every list, as far as it has them, are the nodes that follow in ring order. |
| Settling.ListsBecomeIdeal | vnode.go:204-234 | With no more slots than other nodes, as many rounds as slots make every list a prefix of ring order, which is what the lookup results assume. |
| Routing.NodeSwept | vnode.go:304-346 | From any state of its finger table at most twice hashBits repairs make it right, touching nothing else. |
| Routing.RepairedRingIsFast | vnode.go:304-428 | On such a ring with full-width offsets those repairs by every node make every lookup take at most hashBits remote calls. |
| FastRing.OwnRepairCounts | vnode.go:304-346 | A repair brings its node's table one step nearer to right, and a right table stays right. |
| FastRing.StepComesNearer | vnode.go:125-346 | Inside a run, no check, notification or other node's repair undoes that. |
| FastRing.RunBecomesFast | vnode.go:69-122 | In a run at rest, after the lists settled and every node repaired 2 * hashBits times in any order among other steps, every lookup finds its owner in at most hashBits remote calls. |
| Leaving.SkipsToNextIff | vnode.go:496-514 | The predecessor of a leaving node finds the next node iff it knew two successors, and is left with none iff it knew one. |
| Leaving.LeftNode | vnode.go:451-514 | A leave changes the predecessor's successor list and the successor's predecessor, each only if it named the node, and nothing else. |
| Leaving.LeaveKeepsRing | vnode.go:451-514 | If it knew two, the first successors and predecessors of the remaining nodes are the ideal ring's again after one notification; later slots may still name the node that left. |
| LockManager.LManager.constructor | ring.go:9-31 | A lock manager starts empty, not as primary, with commit index -1. |
| LockManager.LManager.AppendToLog | lm_server.go:78-95 | A backup's append: the new entry's number sinks, the commit point moves. |
| LockManager.LManager.SinkLast | lm_server.go:83-85 | The swapping loop moves operation numbers only. |
| LockManager.LManager.AdvanceCommitPoint | lm_server.go:87-92 | The commit point moves once per pair of consecutive numbers. |
| LockManager.LManager.LogAndReplicate | lm_server.go:318-338 | The entry is logged and sent to the backups in turn, and the call succeeds iff all acknowledge. |
| LockManager.BackupsInTurn | lm_server.go:318-338 | The backups are called in turn until one fails: those that append an entry are the first ones, and the call succeeds iff all of them appended and acknowledged it. |
| LockManager.LManager.CheckWLock | lm_server.go:249-258 | Whether a key is locked, and for which version. |
| LockManager.LManager.CreateWLock | lm_server.go:264-342 | The whole new state and reply for a primary or backup, a failed replication truncating the log. |
| LockManager.LManager.CommitWLock | lm_server.go:344-424 | Likewise for a commit, with the read locks it calls back; version 1 skips them. |
| LockManager.LManager.AbortWLock | lm_server.go:427-478 | Likewise for an abort. |
| LockManager.LManager.CreateRLock | lm_server.go:177-247 | Likewise for a read lock; a failed replication leaves its entry in the log. |
| LockManager.LManager.ExpireWLocks | lm_server.go:106-113 | The ticker's loop drops exactly the locks at or past their timeout. |
| LockManager.LManager.ReplayLog | lm_server.go:480-520 | Clearing and replaying gives the state the log stands for, and restarts the operation count. |
| LockManager.SinkSorts | lm_server.go:83-85 | Sinking keeps operation numbers sorted and every entry's content in place. |
| LockManager.SinkPermutes | lm_server.go:83-85 | The numbers after sinking are the numbers before, none lost or made up. |
| LockManager.ReplayIgnoresOpNums | lm_server.go:487-518 | Logs that differ only in operation numbers replay alike. |
| LockManager.AppendSortsNumbersOnly | lm_server.go:78-95 | A backup's log replays as its entries arrived, whatever numbers they carry. |
| LockManager.OvertakingCommitLeavesLock | lm_server.go:83-85 | A commit that arrives before its lock leaves the lock in the replay. |
| LockManager.AdvancesAllIff | lm_server.go:87-92 | The loop advances for every entry it passes iff no number is missing among them. |
| LockManager.CommitPointFollowsIndex | lm_server.go:82-92 | Commit point and index move together, once for every entry above the index that continues the one before it, and not with the first entry of a log. |
| LockManager.CommitIndexReachesEndIff | lm_server.go:87-92 | An append takes the commit index to the end of the log iff no number is missing above it. |
| LockManager.AdvancesStopIff | lm_server.go:87-92 | The loop ends with nothing missing up to its index iff no gap it met is followed by two numbers in sequence. |
| LockManager.NewNumberKeepsContiguous | lm_server.go:83-85 | A number new to the log lands above all that follow each other from the first. |
| LockManager.CommitIndexStopsIff | lm_server.go:86-92 | An append keeps everything up to the commit index available iff above the old index no gap is followed by two numbers in sequence. |
| LockManager.CommitIndexPassesGap | lm_server.go:87-92 | With a number missing right above it, the next entry in sequence still moves the index past the gap. |
| LogReplay.LastChange | lm_server.go:487-518 | The last WRITE, COMMIT or ABORT of a key, or none. |
| LogReplay.LastCommit | lm_server.go:508-510 | The last COMMIT of a key, or none. |
| LogReplay.ReplayIsLastEntries | lm_server.go:487-518 | A replay leaves a key locked iff its last change is a WRITE, on that entry's terms, and at the version of its last COMMIT. |
| LogReplay.ReplaysAgreeIff | lm_server.go:487-518 | Two logs replay to the same versions and locks iff they leave every key the same lock and version by those last entries. |
| LogReplay.ReplayedReaders | lm_server.go:491-506 | A replay registers a reader iff the log has a READ by it, with the lock id and address of the last one, commits since notwithstanding. |
| LogReplay.ReplayStartsAfresh | lm_server.go:480-520 | After a replay nothing is held, committed or registered but what the log's last entries leave; log and commit index stay and the operation count is 0. |
| LockRuns.StepDoes | lm_server.go:177-478 | A request changes versions and locks as its log entry says iff it is fully replicated; only reads leave failed entries behind. |
| LockRuns.GrantAboveIff | lm_server.go:300-306 | A granted version exceeds the committed one iff it did not wrap round. |
| LockRuns.RunHeldAboveIff | lm_server.go:264-478 | Over any run, every held lock exceeds the committed version in every state iff no grant wraps. |
| LockRuns.StepCommits | lm_server.go:395-403 | Only an accepted commit changes a committed version, and raises it to the one asked for. |
| LockRuns.RunStaysAboveFloor | lm_server.go:264-478 | Versions once below every held and at most every committed one stay so, and all later grants and commits are above them. |
| LockRuns.CommitsStrictlyIncrease | lm_server.go:344-403 | Over any run without a wrapping grant, committed versions of a key strictly increase; none is committed twice. |
| LockRuns.WrappedCommitGoesBack | lm_server.go:300-306 | At the largest uint the next version is 0, and its commit takes the key back. |
| LockRuns.StepKeepsLogMatches | lm_server.go:264-520 | Every step keeps the log replaying to the live versions and, up to expired ones, the live locks. |
| LockRuns.ReplayIsLive | lm_server.go:480-520 | Throughout a term that starts with a replay, replaying gives the live version map, and the live locks once expired ones are dropped, failed replications included. |
| LockRuns.ExpiredLockStaysInLog | lm_server.go:106-113 | Without that dropping the two differ. |
| LockReplies.OthersRefuseClients | lm_server.go:183-189 | A manager that is not primary answers every client's request with a retryable refusal and changes nothing. |
| LockReplies.BackupsOnlyLog | lm_server.go:270-276 | It takes a forwarded entry into its log, last to arrive, applies nothing and reports success under the entry's lock id. |
| LockReplies.PrimaryTakesNoEntry | lm_server.go:266-268 | A primary takes no forwarded entry. |
| LockReplies.WLockReplies | lm_server.go:278-341 | A write lock is granted iff it is held afterwards and was not before, on the terms of the reply; only a failed replication may be retried, other refusals tell the held or committed version. |
| LockReplies.CommitReplies | lm_server.go:358-423 | A commit is acknowledged iff it released its lock and set the version; it may be retried iff the lock is held at that version but replication failed. |
| LockReplies.AbortReplies | lm_server.go:441-477 | So for an abort, which moves no version. |
| LockReplies.RLockReplies | lm_server.go:191-246 | A reader is told the committed version iff there is one and it was registered; no other registration changes. |
| LockReplies.AcknowledgedIsLogged | lm_server.go:205-399 | Every acknowledged request adds exactly one entry to the log, which records its key, lock, version and timeout under the next number. |
| LockReplies.RepliesTellAll | lm_server.go:177-478 | After any run, each key's lock and version are those that the replies sent to clients and the clock tell. |
| LockReplies.LockLasts | lm_server.go:290-341 | A lock that nobody was told is released stays as it is until its timeout, through any run, and no one else is granted the key. |
| LockReplies.GrantLasts | lm_server.go:312-313 | A grant lasts for the seconds asked for. |
| LockReplies.TickEndsTimedOut | lm_server.go:106-113 | The first tick at or after its timeout ends a lock, and no earlier one. |
| LockReplies.TermCountsFromOne | lm_utils.go:16-22 | The first entry of a new primary is numbered 1, whatever its log holds. |
| LockReplies.LaterLogPanics | lm_server.go:83-85 | A backup whose log starts above 1 cannot append it. |
| Failover.DeliverIsAppended | lm_server.go:270-276 | Every handler of a backup just appends the entry it is sent. |
| Failover.StepKeepsFollows | lm_server.go:78-95 | One step of the primary, with any fate of its messages, keeps its backup ahead and its log index in range. |
| Failover.CommitsSurvive | lm_server.go:372-403 | A backup of a whole term never panics and replays to versions at least the primary's, whatever replications failed. |
| Failover.FailoverNeverRegrants | lm_server.go:480-510 | After it takes over, everything it grants or commits is above every version ever acknowledged as committed. |
| Failover.BackupReplaysReceived | lm_server.go:78-95 | However the primary's term goes, a backup's log replays as the entries that reached it. |
| Failover.DeliverAllIff | lm_server.go:82-86 | Arrivals in any order are all taken iff none is numbered below the first one; otherwise an index is out of range. |
| Failover.DeliverAllReplays | lm_server.go:78-95 | A log that took all arrivals replays as they came. |
| Failover.ArrivalOrdersAgreeIff | lm_server.go:83-85 | Two arrival orders leave a backup with the same versions and locks iff they leave every key alike by its last entries. |
| Failover.OvertakenLockStays | lm_server.go:83-85 | Delivered after some earlier entry, a commit that overtakes its lock leaves the lock, which in order it would not. |
| Failover.OvertakenFirstPanics | lm_server.go:83-85 | As the very first arrival it leaves no room for its lock. |
| Failover.BackupRunIsArrivals | lm_server.go:78-95 | A backup's share of a run is the arrival of the entries that reach it. |
| Failover.IndexStaysContiguousIff | lm_server.go:86-92 | Over any arrivals with fresh numbers the commit index never covers a missing number iff no arrival finds a gap above it followed by two in sequence. |
| Failover.IndexPassesMissingNumber | lm_server.go:86-92 | Numbers 1, 2, 4 and 5 arriving at an empty backup leave its index on number 4. |
| Failover.RunPassesMissingNumber | lm_server.go:317-334 | A run of the primary whose third replication fails leaves the backup there. |
| Failover.TakeOverHeldAboveIff | lm_server.go:480-520 | A takeover has every held lock above its committed version iff in the log each key whose last change is a WRITE has it above its last COMMIT. |
| Failover.RunHandsOverHeldAboveIff | lm_server.go:372-403 | After a run, iff that holds of the entries that reached the backup. |
| Failover.BothTermsStrictlyIncrease | lm_server.go:372-403 | If the primary applied every COMMIT that reached the backup, versions are handed over exactly, locks are sound, and over both terms no version is committed twice. |
| Failover.ReplayedLockMayBeCommitted | lm_server.go:387-392 | Lock, commit, abort and lock again of one version replay to it both committed and locked. |
| Failover.TakeOverMayHoldCommitted | lm_server.go:387-392 | A run of primary and backup that hands over exactly that, the commit having reached the backup alone. |
| Terms.StepKeepsKept | lm_server.go:78-95 | One step of any primary keeps each backup replaying to all that was acknowledged, with its locks above. |
| Terms.TermTakenIff | lm_server.go:82-86 | A backup takes a whole term iff its log is empty, nothing reaches it, or the first entry to reach it is not numbered below its own first. |
| Terms.LogFromOneTakesTerm | lm_utils.go:16-22 | As a primary counts from 1 again after its replay, a log that starts with entry 1 takes every later term. |
| Terms.TermsKeepCommits | lm_server.go:480-520 | Over any terms the nodes left keep what was acknowledged before and during them. |
| Terms.CommitsSurviveAllTerms | lm_server.go:372-403 | After any number of failovers every node left replays to at least every version any primary acknowledged. |
| Terms.NextTermNeverRegrants | lm_server.go:480-510 | The next primary grants and commits only versions above all of those. |
| ReadCache.LManagerClient.RLock | lm_client.go:61-80 | A cached version is returned without a call unless a refresh is forced; a fresh one is cached. |
| ReadCache.LManagerClient.WLock | lm_client.go:82-96 | A granted lock is cached; a refusal hands on the version. |
| ReadCache.LManagerClient.CommitWLock | lm_client.go:98-122 | Only a cached lock is committed; success drops the key from both caches. |
| ReadCache.LManagerClient.AbortWLock | lm_client.go:124-144 | Only a cached lock is aborted; success drops it. |
| ReadCache.LManagerClient.InvalidateRLock | lm_client.go:146-160 | One key under the lock id is dropped, in any map order; the empty key counts as none. |
| ReadCache.StepReads | lm_server.go:191-246 | What a request does to copy sets and versions, the reader's registration and the commit's call-backs. |
| ReadCache.WriteCacheIs | lm_client.go:82-144 | A client caches a write lock from the answer that grants it to the answer that releases it, and no event but these changes the cache. |
| ReadCache.SecondReleaseAsksNothing | lm_client.go:98-131 | A second commit or abort fails at the client, without a call. |
| ReadCache.ReadCacheIs | lm_client.go:61-160 | A read lock enters a client's cache with the answer to its own read and leaves it only by a call-back of its lock id or by the client's own acknowledged commit. |
| ReadCache.ReadAnswersIff | lm_client.go:61-80 | A read answers iff the key is cached and no refresh forced, or the client hears of its registration, and then with the version it has cached afterwards. |
| ReadCache.CommitDropsKey | lm_server.go:406-422 | After a commit no client caches the key, unless it is empty, even when version 1 skips the invalidation. |
| ReadCache.KeptEmptyKeyIsStale | lm_client.go:155-157 | A commit of the empty key leaves every client that keeps it cached with an older version. |
| ReadCache.StepCoherentIff | lm_client.go:61-160 | A step keeps every cached key of every client current iff it is neither a forced refresh whose reply is lost nor a commit of the empty key that some client keeps cached. |
| ReadCache.StepKeepsDistinctIds | lm_client.go:146-160 | No client ever caches two keys under one lock id. |
| ReadCache.RunCoherentIff | lm_client.go:61-160 | Over any run of reads, writes, commits, aborts, expiries and lost replies, every cached key stays current throughout iff no step is one of those two. |
| ReadCache.ReadsAreCurrent | lm_client.go:61-80 | In a coherent world a read of any key, cached or not, gives the committed version. |
| ReadCache.LostRefreshGoesStale | lm_client.go:74-78 | After a lost refresh another client's commit leaves an old version in the cache. |
| ReadCache.EmptyKeyGoesStale | lm_client.go:155-157 | A cached empty key survives another client's commit, as an old version. |
| Store.KVStore.constructor | obj_server.go:42-49 | A store starts empty. |
| Store.KVStore.Get | obj_server.go:51-77 | The value of a stored version, and which error otherwise. |
| Store.KVStore.Set | obj_server.go:79-114 | In front of the list if newer than its front, else an error and no change. |
| Store.KVStore.BulkSet | obj_server.go:129-170 | Each value in front if newest, at the back otherwise; no values are an error. |
| Store.KVStore.PurgeList | obj_server.go:182-195 | The removing loop keeps exactly the entries at or above the bound, in order. |
| Store.KVStore.PurgeVersions | obj_server.go:172-202 | The key goes with its last entry; an unknown key is an error. |
| Store.PushedRefines | obj_server.go:150-165 | Pushing keeps the newest version in front and never shadows a stored value. |
| Store.PurgedRefines | obj_server.go:184-195 | A purged list holds exactly the versions at or above the bound. |
| Store.PurgedInOrder | obj_server.go:184-195 | Each entry goes or stays by its own version, and those that stay keep their order. |
| Store.PurgedKeepsFront | obj_server.go:184-199 | A purge leaves the newest version in front, or nothing. |
| Store.FrontDecides | obj_server.go:100-105 | Comparing with the front alone decides whether a version is above all stored ones. |
| Store.ApplyRefines | obj_server.go:79-202 | Each operation on the lists is the operation on the map of maps, errors included. |
| Store.RunRefines | obj_server.go:79-202 | So is any run of operations, and the front is the newest throughout. |
| Store.ApplyKeepsValue | obj_server.go:79-202 | No operation changes a stored value; only a purge above a version removes it. |
| Store.RunKeepsValue | obj_server.go:79-202 | A stored version keeps its value through every run without a purge above it. |
| Store.UnsortedList | obj_server.go:158-162 | The list itself need not be sorted. |
| AntiEntropy.SendSyncKeys | obj_server_repl.go:157-183 | The versions in list order, unless the key is gone or the target is local. |
| AntiEntropy.HandleSyncKeys | obj_server_repl.go:247-298 | A replica asks for exactly the versions it lacks, or nothing. |
| AntiEntropy.Present | obj_server_repl.go:275-280 | The inner search tells whether a version is stored. |
| AntiEntropy.HandleMissingKeys | obj_server_repl.go:307-343 | The owner answers with the values of the versions asked for that it has. |
| AntiEntropy.Exchange | obj_server_repl.go:157-343 | The four messages end to end leave the replica as the exchange function says. |
| AntiEntropy.AskedFor | obj_server_repl.go:272-285 | The versions asked for are those the owner has and the replica lacks. |
| AntiEntropy.MissingInOrder | obj_server_repl.go:272-285 | The request keeps the order of the versions received. |
| AntiEntropy.FetchedInOrder | obj_server_repl.go:325-334 | The answer keeps the order of the versions asked for. |
| AntiEntropy.ExchangeIsUnion | obj_server_repl.go:157-343 | Afterwards the replica has the union of both version maps, its own values winning, and other keys are untouched. |
| AntiEntropy.SecondExchangeAsksNothing | obj_server_repl.go:287-289 | An immediate second exchange asks for nothing and changes nothing. |
| AntiEntropy.RoundIsUnion | obj_server_repl.go:70-88 | Exchanges over many keys give the union for each, whatever the order. |
| Placement.LocalRepl | obj_server_repl.go:13-93 | Which keys go to the first successor and which back to the first predecessor. |
| Placement.GlobalRepl | obj_server_repl.go:95-155 | Which keys go to their looked-up owner. |
| Placement.IncSync | obj_server_repl.go:185-224 | A fresh value goes to the remote successors iff the node has no predecessor or owns the key. |
| Placement.CountIsFilledSlots | obj_server_repl.go:22-26 | The predecessors counted are the filled slots, wherever they are. |
| Placement.LastKnown | obj_server_repl.go:44-49 | The last predecessor is the filled slot farthest back among the first k. |
| Placement.ArcCovers | util.go:40-49 | The arc from a node's k-th predecessor holds the keys owned fewer than k steps back. |
| Placement.ForwardsIff | obj_server_repl.go:77-82 | On an ideal ring of any size n a node forwards a key iff it is fewer than min(R, n - 1) steps past its owner: the owner and its first R - 1 successors, never the owner's predecessor. |
| Placement.SendsBackIff | obj_server_repl.go:84-87 | Exactly the owner's first successor sends it back, to the owner, in rings of three nodes or more; of two nodes neither does. |
| Placement.MisplacedIff | obj_server_repl.go:136-145 | On a ring of any size `globalRepl` selects a key iff the node is neither owner nor one of the R replicas. |
| Placement.IncSyncReachesReplicas | obj_server_repl.go:202-212 | A value set at the owner goes to exactly its R replicas, or to all nodes if there are fewer; set elsewhere it goes nowhere. |
| Placement.RoundsCoverReplicas | obj_server_repl.go:70-88 | From the owner's copy t rounds cover its first t successors, and never more than R. |
| Placement.RoundsNeverPass | obj_server_repl.go:70-149 | Whoever holds a key, no round takes it past the R-th replica. |
| Placement.RoundsHealIff | obj_server_repl.go:70-149 | On a ring of any size R + 1 rounds bring a key to its owner and all replicas iff the owner, its first successor in a ring of three or more, or a node past the replicas holds it. |
| Client.SetVersionWithoutRetry | obj_client.go:205-234 | Store at the master, then commit; abort after a failed store; success iff both succeed. |
| Client.SetVersion | obj_client.go:182-203 | It ends as the first attempt that succeeds or fails for good, or not at all iff every attempt may be retried; its calls are those of the attempts up to that one, and a commit is only called right after the same write was stored. |
| Client.CallsOfAttempt | obj_client.go:182-203 | Each attempt's calls directly follow those of the attempts before it. |
| Client.Set | obj_client.go:156-175 | The write is tried under the version of the first grant after retryable refusals; a final refusal before it ends the call with an error and no write. |
| EndToEnd.AcceptedSet | obj_server.go:79-114 | A set that reaches the master is accepted iff its version is above all stored ones. |
| EndToEnd.AcceptedCommit | lm_server.go:358-403 | A commit that arrives is accepted iff its lock is still held at its version and it is fully replicated; otherwise versions and locks stay. |
| EndToEnd.PurgeKeepsNewest | obj_server.go:172-202 | A purge at or below the committed version keeps something at least as new as any accepted write. |
| EndToEnd.PurgedKey | obj_server.go:172-202 | A purge leaves the master exactly the versions at or above its bound. |
| EndToEnd.StepKeepsInv | obj_client.go:156-234 | Every step of clients, messages, lock manager, purges and repairs keeps the invariant. |
| EndToEnd.VersionMapIsStored | obj_client.go:219-233 | In every state of every run without a wrapping grant the master holds each committed version with exactly the bytes of the write whose commit was accepted. |
| EndToEnd.CommittedOnce | lm_server.go:358-402 | A version of a key is committed for one write only, whoever held the lock meanwhile. |
| EndToEnd.CommittedBytesStay | obj_server.go:98-108 | A committed version's bytes never change, through any further run, until a purge goes above it. |
| EndToEnd.StoredIsRun | obj_client.go:156-217 | Asking for the next version of a free key, sending the value under it and storing it is a run of the system. |
| EndToEnd.WriteGoesThroughIff | obj_client.go:156-234 | A write under a granted next version that meets no failure can be committed iff that version is above all the master stores, and then the version map names it, the master holds its bytes and the lock is gone. |
| Replicas.ExchangeIsGenuine | obj_server_repl.go:157-343 | An exchange between stores brings in only values the master accepted. |
| Replicas.ToMasterIsRepair | obj_server_repl.go:307-343 | An exchange towards the master is a repair the end-to-end result allows. |
| Replicas.StepKeepsClusterInv | obj_server_repl.go:185-343 | Late pushes, exchanges between any stores and purges keep every store genuine. |
| Replicas.OnlyOneValue | obj_server.go:51-77 | No store holds anything but an accepted write's own value under its version. |
| Replicas.ExchangeAnswers | obj_server_repl.go:157-343 | An exchange makes its target answer whatever its source answers and it did not, and changes no other answer anywhere. |
| Replicas.PushAnswers | obj_server_repl.go:226-238 | A pushed value answers reads at its replica if it is newer than all the replica has; no other answer anywhere changes. |
| Replicas.PurgeAnswers | obj_server.go:172-202 | A purge takes away a replica's answers below its bound, and no others. |
| Replicas.RepairedReplicaAnswers | obj_server_repl.go:157-343 | After an exchange with the master a replica answers a read of the committed version, with the committed bytes. |
| Replicas.ReadsReturnCommitted | obj_client.go:110-124 | A version that was ever committed, read then or later at the master or any replica, is missing there or has exactly the bytes of the write whose commit was accepted. |

## Left out

- Transports, JSON messages, dispatch, TCP, the tracker, UPnP and the mock clock: plumbing around the calls modelled here.
- Mutexes, goroutines, tokens and timers: handlers and stabilisation steps are atomic, and the clock is a value. The early return of `createWLock` that keeps `verMapMut` locked belongs to this layer.
- Single-node rings: the interval tests are empty when a node succeeds itself, so rings have at least two nodes.
- Lookups of no nodes at all (n = 0).
- Lookup.FindSuccessors: for an offset key with dropped zero bytes, the order in which peers are asked. The model pads the key for distances as it does for the interval tests, while `distance` (iter_closest.go:110-127) reads the short bytes as their own number; which peers may be asked and every interval test are the same, and only `fixFingerTable` looks up such keys.
- Aliasing of the lists that `FindSuccessors` and `GetPredecessorList` return by reference.
- The iterator while another goroutine changes the arrays it walks.
- An error that comes with a successful ping: a peer either answers every call of one `checkNewSuccessor` or none.
- Failures and leaves in the runs of module Stabilise; a leave on its own is in module Leaving.
- `checkPredecessor`, `updatePredecessorList` and the predecessor lists beyond slot 0 under stabilisation; module Placement takes ideal lists.
- `nearestVnodeToKey` and the unsorted list `Join` hands it: a join may go through any member.
- Fingers.SweepRepairsTable: only nodes all of whose offsets keep full width, because a shortened offset can point at the node itself, where the repair's lookup fails and the table stays as it is.
- Vnodes.LocalVnode.Notify: without the lock manager's part, which replays the log on becoming primary (module Failover) or hands the version map to the new one; `UpdateVersionMap` changes versions without a log entry and is not part of this model.
- Read locks in the replay equality: a replay registers readers under the primary's id and keeps them across commits, `LogReplay.ReplayedReaders`.
- LockRuns.ReplayIsLive: the node id of a write lock, which a log entry does not record.
- LockManager.LManager.CreateRLock: without the copy set that its READ entry carries and nothing reads.
- LockManager.LManager.AbortWLock: its backups are all there; the code lacks the nil check its sisters have.
- Entries shared by reference between vnodes of one process.
- Wrap-around of the operation count and of commit points, and overflow of durations.
- A primary that comes back as a backup: in module Terms it is gone after its term.
- Node ids on remote read locks and the resolution of invalidation targets: one client per node id, and invalidations are delivered.
- `getWithoutRetry`, which removes entries from the slice it ranges over, and its random choice of a replica.
- Waiting between retries; a retry loop is given the outcomes it will meet.
- Replicas.ReadsReturnCommitted: that a replica has the version; `Replicas.RepairedReplicaAnswers` says when it does.
- EndToEnd.VersionMapIsStored: one master per key for the whole run, purges at or below the committed version, and no grant that wraps round to version 0, after which a late commit of 0 could name a version purged long ago. The same holds for the other results of EndToEnd and Replicas.
- SHA-1 and lock ids: a hash is any function, and a lock id is fresh.
