/**
 * obj_server_repl.go: the exchange that repairs a replica. The owner sends the versions of
 * a key, the replica asks for those it misses, the owner answers with their values and the
 * replica bulk-sets them.
 */
module AntiEntropy {
  import opened Wrappers
  import opened Store

  // ---------- the messages ----------

  /** The versions in a list, in its order. */
  function VersionList(list: seq<KVStoreValue>): (r: seq<nat>)
    ensures |r| == |list| && forall i :: 0 <= i < |r| ==> r[i] == list[i].ver
  {
    seq(|list|, i requires 0 <= i < |list| => list[i].ver)
  }

  function Missing(vs: Versions, ver: seq<nat>): seq<nat> {
    if ver == [] then [] else Missing(vs, ver[..|ver| - 1]) + (if ver[|ver| - 1] in vs then [] else [ver[|ver| - 1]])
  }

  function Fetched(vs: Versions, ver: seq<nat>): seq<KVStoreValue> {
    if ver == [] then []
    else
      var v := ver[|ver| - 1];
      Fetched(vs, ver[..|ver| - 1]) + (if v in vs then [KVStoreValue(v, vs[v])] else [])
  }

  /** `sendSyncKeys`: what the owner sends of a key, unless it no longer has it or the target is local. */
  method SendSyncKeys(store: KVStore, key: string, targetLocal: bool) returns (msg: Option<seq<nat>>)
    ensures msg == if key in store.kv && !targetLocal then Some(VersionList(store.kv[key])) else None
  {
    if key !in store.kv {
      return None;
    }
    var list := store.kv[key];
    var ver := [];
    for i := 0 to |list|
      invariant |ver| == i && forall j :: 0 <= j < i ==> ver[j] == list[j].ver
    {
      ver := ver + [list[i].ver];
    }
    assert ver == VersionList(list);
    return if targetLocal then None else Some(ver);
  }

  /** The inner loop of `handleSyncKeys`. */
  method Present(list: seq<KVStoreValue>, version: nat) returns (present: bool)
    ensures present <==> version in Abs(list)
  {
    present := false;
    for i := 0 to |list|
      invariant version in Abs(list) <==> version in Abs(list[i..])
    {
      assert list[i..][1..] == list[i + 1..];
      if list[i].ver == version {
        return true;
      }
    }
  }

  /** `handleSyncKeys`: what the replica asks a remote owner for, if anything. */
  method HandleSyncKeys(store: KVStore, ownerKnown: bool, ownerLocal: bool, key: string, ver: seq<nat>)
    returns (msg: Option<seq<nat>>)
    ensures msg ==
      if !ownerKnown || ownerLocal || (key in store.kv && Missing(Abs(store.kv[key]), ver) == []) then None
      else Some(Missing(Abs(ListOf(store.kv, key)), ver))
  {
    if !ownerKnown {
      return None;
    }
    if key !in store.kv {
      AllMissing(ver);
      return if ownerLocal then None else Some(ver);
    }
    var list := store.kv[key];
    var retVer := [];
    for i := 0 to |ver|
      invariant retVer == Missing(Abs(list), ver[..i])
    {
      assert ver[..i + 1][..i] == ver[..i];
      var present := Present(list, ver[i]);
      if !present {
        retVer := retVer + [ver[i]];
      }
    }
    assert ver[..|ver|] == ver;
    if |retVer| == 0 || ownerLocal {
      return None;
    }
    return Some(retVer);
  }

  /** `handleMissingKeys`: the values the owner answers a remote replica with. */
  method HandleMissingKeys(store: KVStore, replicaKnown: bool, replicaLocal: bool, key: string, ver: seq<nat>)
    returns (msg: Option<seq<KVStoreValue>>)
    ensures msg ==
      if !replicaKnown || replicaLocal || key !in store.kv then None else Some(Fetched(Abs(store.kv[key]), ver))
  {
    if !replicaKnown || key !in store.kv {
      return None;
    }
    var valueLst := [];
    for i := 0 to |ver|
      invariant valueLst == Fetched(Abs(store.kv[key]), ver[..i])
    {
      assert ver[..i + 1][..i] == ver[..i];
      var r := store.Get(key, ver[i]);
      if r.Ok? {
        valueLst := valueLst + [KVStoreValue(ver[i], r.value)];
      }
    }
    assert ver[..|ver|] == ver;
    return if replicaLocal then None else Some(valueLst);
  }

  /** One undisturbed exchange between two hosts. */
  method Exchange(owner: KVStore, replica: KVStore, key: string) returns (requested: seq<nat>)
    requires owner != replica && WellFormed(owner.kv) && WellFormed(replica.kv)
    modifies replica
    ensures (replica.kv, requested) == Exchanged(owner.kv, old(replica.kv), key)
    ensures WellFormed(replica.kv)
  {
    requested := [];
    var sent := SendSyncKeys(owner, key, false);
    if sent.None? {
      return;
    }
    AbsEmptyIff(owner.kv[key]);
    VersionsOfAbs(owner.kv, key);
    VersionsOfAbs(replica.kv, key);
    var asked := HandleSyncKeys(replica, true, false, key, sent.value);
    AllMissing(sent.value);
    if asked.None? {
      return;
    }
    requested := asked.value;
    var values := HandleMissingKeys(owner, true, false, key, requested);
    ApplyRefines(replica.kv, Op.BulkSet(key, values.value));
    var _ := replica.BulkSet(key, values.value);
  }

  // ---------- its meaning ----------

  /** The replica's lists after an exchange, and the versions it asked for. */
  function Exchanged(owner: map<string, seq<KVStoreValue>>, replica: map<string, seq<KVStoreValue>>, key: string)
    : (map<string, seq<KVStoreValue>>, seq<nat>)
  {
    if key !in owner then (replica, [])
    else
      var asked := Missing(Abs(ListOf(replica, key)), VersionList(owner[key]));
      if asked == [] then (replica, [])
      else (Apply(replica, Op.BulkSet(key, Fetched(Abs(owner[key]), asked))).0, asked)
  }

  lemma Appends<T>(a: seq<T>, b: seq<T>, c: seq<T>)
    ensures a + (b + c) == a + b + c
    ensures c == [] ==> b + c == b
  {
  }

  /** A request keeps the order of the versions it goes through, each judged on its own. */
  lemma {:induction false} MissingInOrder(vs: Versions, ver: seq<nat>, more: seq<nat>)
    ensures Missing(vs, ver + more) == Missing(vs, ver) + Missing(vs, more)
    decreases |more|
  {
    if more == [] {
      assert ver + more == ver;
      Appends(Missing(vs, ver), [], []);
    } else {
      var front, v := more[..|more| - 1], more[|more| - 1];
      MissingInOrder(vs, ver, front);
      MissingLast(vs, ver + front, v);
      MissingLast(vs, front, v);
      Appends(ver, front, [v]);
      Appends(Missing(vs, ver), Missing(vs, front), (if v in vs then [] else [v]));
      assert more == front + [v];
      hide Missing;
    }
  }

  lemma MissingLast(vs: Versions, ver: seq<nat>, v: nat)
    ensures Missing(vs, ver + [v]) == Missing(vs, ver) + (if v in vs then [] else [v])
  {
    assert (ver + [v])[..|ver|] == ver;
  }

  /** So does an answer. */
  lemma {:induction false} FetchedInOrder(vs: Versions, ver: seq<nat>, more: seq<nat>)
    ensures Fetched(vs, ver + more) == Fetched(vs, ver) + Fetched(vs, more)
    decreases |more|
  {
    if more == [] {
      assert ver + more == ver;
      Appends(Fetched(vs, ver), [], []);
    } else {
      var front, v := more[..|more| - 1], more[|more| - 1];
      FetchedInOrder(vs, ver, front);
      FetchedLast(vs, ver + front, v);
      FetchedLast(vs, front, v);
      Appends(ver, front, [v]);
      Appends(Fetched(vs, ver), Fetched(vs, front), (if v in vs then [KVStoreValue(v, vs[v])] else []));
      assert more == front + [v];
      hide Fetched;
    }
  }

  lemma FetchedLast(vs: Versions, ver: seq<nat>, v: nat)
    ensures Fetched(vs, ver + [v]) == Fetched(vs, ver) + (if v in vs then [KVStoreValue(v, vs[v])] else [])
  {
    assert (ver + [v])[..|ver|] == ver;
  }

  lemma {:induction false} AllMissing(ver: seq<nat>)
    ensures Missing(map[], ver) == ver
  {
    if ver != [] {
      AllMissing(ver[..|ver| - 1]);
    }
  }

  lemma VersionsOfAbs(kv: map<string, seq<KVStoreValue>>, key: string)
    ensures VersionsOf(AbsStore(kv), key) == Abs(ListOf(kv, key))
  {
  }

  lemma {:induction false} MissingMembers(vs: Versions, ver: seq<nat>, v: nat)
    ensures v in Missing(vs, ver) <==> v in ver && v !in vs
  {
    if ver != [] {
      MissingMembers(vs, ver[..|ver| - 1], v);
    }
  }

  lemma {:induction false} FetchedMembers(vs: Versions, ver: seq<nat>, x: KVStoreValue)
    ensures x in Fetched(vs, ver) <==> x.ver in ver && x.ver in vs && x.val == vs[x.ver]
  {
    if ver != [] {
      FetchedMembers(vs, ver[..|ver| - 1], x);
    }
  }

  /** Merging values that agree with one map. */
  lemma {:induction false} MergedAllMembers(vs: Versions, from: Versions, values: seq<KVStoreValue>, v: nat)
    requires forall x :: x in values ==> x.ver in from && x.val == from[x.ver]
    ensures v in MergedAll(vs, values) <==> v in vs || (v in from && KVStoreValue(v, from[v]) in values)
    ensures v in MergedAll(vs, values) ==> MergedAll(vs, values)[v] == if v in vs then vs[v] else from[v]
    decreases |values|
  {
    if values != [] {
      MergedAllMembers(Merged(vs, values[0]), from, values[1..], v);
    }
  }

  /** The replica asks for exactly the versions it lacks. */
  lemma AskedFor(list: seq<KVStoreValue>, r: Versions, v: nat)
    ensures v in Missing(r, VersionList(list)) <==> v in Abs(list) && v !in r
  {
    MissingMembers(r, VersionList(list), v);
    AbsMembers(list, v);
  }

  lemma AnswerMerges(list: seq<KVStoreValue>, r: Versions, v: nat)
    ensures var m := MergedAll(r, Fetched(Abs(list), Missing(r, VersionList(list))));
            && (v in m <==> v in Abs(list) || v in r)
            && (v in m ==> m[v] == if v in r then r[v] else Abs(list)[v])
  {
    var o, asked := Abs(list), Missing(r, VersionList(list));
    var values := Fetched(o, asked);
    forall x | x in values ensures x.ver in o && x.val == o[x.ver] {
      FetchedMembers(o, asked, x);
    }
    MergedAllMembers(r, o, values, v);
    AskedFor(list, r, v);
    if v in o {
      FetchedMembers(o, asked, KVStoreValue(v, o[v]));
    }
  }

  /** What it gets for them completes the union. */
  lemma AnswerCompletes(list: seq<KVStoreValue>, r: Versions)
    ensures MergedAll(r, Fetched(Abs(list), Missing(r, VersionList(list)))) == Abs(list) + r
  {
    var m := MergedAll(r, Fetched(Abs(list), Missing(r, VersionList(list))));
    forall v: nat ensures v in m <==> v in Abs(list) || v in r
      ensures v in m ==> m[v] == if v in r then r[v] else Abs(list)[v] {
      AnswerMerges(list, r, v);
    }
  }

  lemma SomeMember(s: seq<nat>)
    ensures s == [] || exists v :: v in s
  {
    if s != [] {
      assert s[0] in s;
    }
  }

  /** Nothing is asked for exactly when the replica has every version the owner has. */
  lemma AsksNothingIff(list: seq<KVStoreValue>, r: Versions)
    ensures Missing(r, VersionList(list)) == [] <==> Abs(list).Keys <= r.Keys
  {
    forall v: nat ensures v in Missing(r, VersionList(list)) <==> v in Abs(list) && v !in r {
      AskedFor(list, r, v);
    }
    SomeMember(Missing(r, VersionList(list)));
  }

  /**
   * One exchange makes the replica's versions of the key the union of its own and the
   * owner's, its own values winning, and touches no other key.
   */
  lemma ExchangeIsUnion(owner: map<string, seq<KVStoreValue>>, replica: map<string, seq<KVStoreValue>>, key: string)
    requires WellFormed(owner) && WellFormed(replica)
    ensures var after := Exchanged(owner, replica, key).0;
            && WellFormed(after)
            && Abs(ListOf(after, key)) == Abs(ListOf(owner, key)) + Abs(ListOf(replica, key))
            && (forall k :: k != key ==> ListOf(after, k) == ListOf(replica, k))
  {
    var r := Abs(ListOf(replica, key));
    if key in owner {
      AnswerCompletes(owner[key], r);
      AsksNothingIff(owner[key], r);
      PushedAllRefines(ListOf(replica, key), Fetched(Abs(owner[key]), Missing(r, VersionList(owner[key]))));
      assert Abs(owner[key]).Keys <= r.Keys ==> Abs(owner[key]) + r == r;
    } else {
      assert map[] + r == r;
    }
    hide Abs, MergedAll, Missing, Fetched, PushedAll, VersionList, FrontIsMax;
  }

  /** An immediate second exchange asks for nothing and changes nothing. */
  lemma SecondExchangeAsksNothing(owner: map<string, seq<KVStoreValue>>, replica: map<string, seq<KVStoreValue>>, key: string)
    requires WellFormed(owner) && WellFormed(replica)
    ensures var after := Exchanged(owner, replica, key).0;
            Exchanged(owner, after, key) == (after, [])
  {
    ExchangeIsUnion(owner, replica, key);
    if key in owner {
      var after := Exchanged(owner, replica, key).0;
      AsksNothingIff(owner[key], Abs(ListOf(after, key)));
    }
  }

  /** Exchanges for a list of keys, one after the other. */
  function ExchangedAll(owner: map<string, seq<KVStoreValue>>, replica: map<string, seq<KVStoreValue>>, keys: seq<string>)
    : map<string, seq<KVStoreValue>>
    decreases |keys|
  {
    if keys == [] then replica else ExchangedAll(owner, Exchanged(owner, replica, keys[0]).0, keys[1..])
  }

  /** A round over many keys: the union for each of them, whatever their order, and nothing else changes. */
  lemma {:induction false} RoundIsUnion(
    owner: map<string, seq<KVStoreValue>>, replica: map<string, seq<KVStoreValue>>, keys: seq<string>, key: string)
    requires WellFormed(owner) && WellFormed(replica)
    ensures var after := ExchangedAll(owner, replica, keys);
            && WellFormed(after)
            && (key !in keys ==> ListOf(after, key) == ListOf(replica, key))
            && (key in keys ==> Abs(ListOf(after, key)) == Abs(ListOf(owner, key)) + Abs(ListOf(replica, key)))
    decreases |keys|
  {
    hide WellFormed, Exchanged, Abs, ListOf;
    if keys != [] {
      ExchangeIsUnion(owner, replica, keys[0]);
      RoundIsUnion(owner, Exchanged(owner, replica, keys[0]).0, keys[1..], key);
      var o, r := Abs(ListOf(owner, key)), Abs(ListOf(replica, key));
      assert o + (o + r) == o + r;
    }
  }
}
