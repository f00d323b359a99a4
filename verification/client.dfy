/**
 * obj_client.go: writing a value through lock, store and commit, and the guarantee of the
 * whole system for one master store and one primary lock manager.
 */
module Client {
  import opened Wrappers
  import opened LockManager
  import opened LockRuns
  import opened Store

  datatype Write = Write(key: string, version: nat, value: Value)

  // ---------- one client's calls ----------

  /** A call's outcome: done, or an error that may be worth a retry. */
  datatype Outcome = Fine | Error(retryable: bool)

  /** What one attempt to store and commit meets. */
  datatype Attempt = Attempt(lookup: Outcome, store: Outcome, abort: Outcome, commit: Outcome)

  /** The calls that leave the client. */
  datatype Call = SetCall(w: Write, outcome: Outcome) | AbortCall(w: Write) | CommitCall(w: Write, outcome: Outcome)

  /** A commit is only ever called for right after the same write was stored. */
  ghost predicate CommitsFollowSets(calls: seq<Call>, w: Write) {
    forall i {:trigger CallFits(calls, w, i)} :: CallFits(calls, w, i)
  }

  ghost predicate CallFits(calls: seq<Call>, w: Write, i: int) {
    0 <= i < |calls| ==>
      calls[i].w == w && (calls[i].CommitCall? ==> i > 0 && calls[i - 1] == SetCall(w, Fine))
  }

  /** How an attempt ends, and the calls it makes. */
  function Ends(a: Attempt): Outcome {
    if a.lookup != Fine then a.lookup else if a.store != Fine then a.store else a.commit
  }

  function Makes(w: Write, a: Attempt): seq<Call> {
    if a.lookup != Fine then []
    else [SetCall(w, a.store), if a.store != Fine then AbortCall(w) else CommitCall(w, a.commit)]
  }

  /** `setVersionWithoutRetry`. */
  method SetVersionWithoutRetry(w: Write, a: Attempt) returns (r: Outcome, calls: seq<Call>)
    ensures CommitsFollowSets(calls, w)
    ensures r == Fine <==> calls == [SetCall(w, Fine), CommitCall(w, Fine)]
    ensures a.lookup == Fine && a.store != Fine ==> r == a.store && calls == [SetCall(w, a.store), AbortCall(w)]
    ensures a.lookup == Fine && a.store == Fine ==> r == a.commit && calls == [SetCall(w, Fine), CommitCall(w, a.commit)]
    ensures a.lookup != Fine ==> r == a.lookup && calls == []
    ensures r == Ends(a) && calls == Makes(w, a)
  {
    if a.lookup != Fine {
      return a.lookup, [];
    }
    if a.store != Fine {
      calls := [SetCall(w, a.store), AbortCall(w)];
      assert calls[0].outcome != Fine;
      return a.store, calls;
    }
    calls := [SetCall(w, Fine), CommitCall(w, a.commit)];
    assert calls[1].outcome == a.commit;
    return a.commit, calls;
  }

  lemma ExtendCalls(before: seq<Call>, made: seq<Call>, w: Write)
    requires CommitsFollowSets(before, w) && CommitsFollowSets(made, w)
    ensures CommitsFollowSets(before + made, w)
    ensures made != [] ==> (before + made)[|before + made| - 1] == made[|made| - 1]
  {
    var calls := before + made;
    forall i ensures CallFits(calls, w, i) {
      assert CallFits(before, w, i) && CallFits(made, w, i - |before|);
    }
  }

  /** The calls of the first k attempts, one attempt after the other. */
  function CallsUpTo(w: Write, attempts: seq<Attempt>, k: nat): seq<Call>
    requires k <= |attempts|
  {
    if k == 0 then [] else CallsUpTo(w, attempts, k - 1) + Makes(w, attempts[k - 1])
  }

  /** Each attempt's calls follow those of the attempts before it. */
  lemma {:induction false} CallsOfAttempt(w: Write, attempts: seq<Attempt>, k: nat, j: nat)
    requires j < k <= |attempts|
    ensures CallsUpTo(w, attempts, 0) == []
    ensures var calls, from := CallsUpTo(w, attempts, k), |CallsUpTo(w, attempts, j)|;
            && from + |Makes(w, attempts[j])| == |CallsUpTo(w, attempts, j + 1)| <= |calls|
            && calls[from..from + |Makes(w, attempts[j])|] == Makes(w, attempts[j])
    decreases k
  {
    if j < k - 1 {
      CallsOfAttempt(w, attempts, k - 1, j);
    }
    hide Makes;
  }

  /** Attempt k is the first that does not end in an error worth a retry. */
  predicate Decides(attempts: seq<Attempt>, k: int) {
    0 <= k < |attempts| && Ends(attempts[k]) != Error(true) && forall j :: 0 <= j < k ==> Ends(attempts[j]) == Error(true)
  }

  /** What a retry loop over the attempts does: all of them in vain, or up to the one that decides. */
  ghost predicate Tried(w: Write, attempts: seq<Attempt>, r: Option<Outcome>, calls: seq<Call>) {
    && (r == None <==> forall j :: 0 <= j < |attempts| ==> Ends(attempts[j]) == Error(true))
    && (r == None ==> calls == CallsUpTo(w, attempts, |attempts|))
    && (forall k {:trigger Decides(attempts, k)} :: Decides(attempts, k) ==>
          r == Some(Ends(attempts[k])) && calls == CallsUpTo(w, attempts, k + 1))
  }

  /** `SetVersion`, which retries until success or a final error; None when the attempts at hand run out. */
  method SetVersion(w: Write, attempts: seq<Attempt>) returns (r: Option<Outcome>, calls: seq<Call>)
    ensures Tried(w, attempts, r, calls)
    ensures CommitsFollowSets(calls, w)
    ensures r == Some(Fine) <==> calls != [] && calls[|calls| - 1] == CommitCall(w, Fine)
    ensures r.Some? ==> r.value == Fine || !r.value.retryable
  {
    calls := [];
    for i := 0 to |attempts|
      invariant forall j :: 0 <= j < i ==> Ends(attempts[j]) == Error(true)
      invariant calls == CallsUpTo(w, attempts, i)
      invariant CommitsFollowSets(calls, w)
      invariant calls != [] ==> calls[|calls| - 1] != CommitCall(w, Fine)
    {
      var err, made := SetVersionWithoutRetry(w, attempts[i]);
      ghost var before := calls;
      calls := calls + made;
      ExtendCalls(before, made, w);
      hide CommitsFollowSets, CallFits, Makes, Ends;
      if err == Fine {
        return Some(Fine), calls;
      }
      if !err.retryable {
        return Some(err), calls;
      }
    }
    return None, calls;
  }

  /** Every request for the lock before the i-th was refused with an error worth a retry. */
  predicate RefusedBefore(grants: seq<Result<nat, bool>>, i: nat) {
    i <= |grants| && forall j :: 0 <= j < i ==> grants[j] == Err(true)
  }

  /** `Set`: asks for the next version until the lock is granted or refused for good, then stores under it. */
  method Set(key: string, value: Value, grants: seq<Result<nat, bool>>, attempts: seq<Attempt>)
    returns (r: Option<Outcome>, calls: seq<Call>)
    ensures forall i: nat {:trigger RefusedBefore(grants, i)} :: RefusedBefore(grants, i) ==>
      if i == |grants| then r == None && calls == []
      else if grants[i].Ok? then
        var w := Write(key, grants[i].value, value);
        && Tried(w, attempts, r, calls) && CommitsFollowSets(calls, w)
        && (r == Some(Fine) <==> calls != [] && calls[|calls| - 1] == CommitCall(w, Fine))
      else grants[i] == Err(false) ==> r == Some(Error(false)) && calls == []
  {
    calls := [];
    for i := 0 to |grants|
      invariant RefusedBefore(grants, i)
      invariant calls == []
    {
      match grants[i] {
        case Ok(v) =>
          r, calls := SetVersion(Write(key, v, value), attempts);
          return;
        case Err(retryable) =>
          if !retryable {
            return Some(Error(false)), [];
          }
      }
    }
    return None, [];
  }
}
