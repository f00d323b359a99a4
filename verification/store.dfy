/**
 * obj_server.go: the versioned key/value store of one node, a list of versions per key,
 * and the map of maps it refines.
 */
module Store {
  import opened Wrappers

  type Value = seq<int>

  datatype KVStoreValue = KVStoreValue(ver: nat, val: Value)

  type Versions = map<nat, Value>

  datatype StoreError = KeyNotFound | VersionNotFound | LowerVersion | EmptyList

  // ---------- lists ----------

  /** The versions a list holds; `get` finds the first entry of a version. */
  function Abs(list: seq<KVStoreValue>): Versions {
    if list == [] then map[] else Abs(list[1..])[list[0].ver := list[0].val]
  }

  /** What `bulkSet` does with one value: in front if it is the newest, at the back otherwise. */
  function Pushed(list: seq<KVStoreValue>, x: KVStoreValue): seq<KVStoreValue> {
    if list == [] || list[0].ver < x.ver then [x] + list else list + [x]
  }

  function PushedAll(list: seq<KVStoreValue>, values: seq<KVStoreValue>): seq<KVStoreValue>
    decreases |values|
  {
    if values == [] then list else PushedAll(Pushed(list, values[0]), values[1..])
  }

  function Purged(list: seq<KVStoreValue>, bound: nat): seq<KVStoreValue> {
    if list == [] then [] else Purged(list[..|list| - 1], bound) + (if list[|list| - 1].ver < bound then [] else list[|list| - 1..])
  }

  /** The first entry is the newest. */
  ghost predicate FrontIsMax(list: seq<KVStoreValue>) {
    list != [] && forall i :: 0 <= i < |list| ==> list[i].ver <= list[0].ver
  }

  /** Every key has a list with its newest version in front. */
  ghost predicate WellFormed(kv: map<string, seq<KVStoreValue>>) {
    forall k :: k in kv ==> FrontIsMax(kv[k])
  }

  // ---------- the map of maps ----------

  function AbsStore(kv: map<string, seq<KVStoreValue>>): map<string, Versions> {
    map k | k in kv :: Abs(kv[k])
  }

  function VersionsOf(m: map<string, Versions>, key: string): Versions {
    if key in m then m[key] else map[]
  }

  /** A version may be set only above every version the key has. */
  ghost predicate Newest(m: map<string, Versions>, key: string, version: nat) {
    forall v :: v in VersionsOf(m, key) ==> v < version
  }

  /** A value is added unless its version is there already. */
  function Merged(vs: Versions, x: KVStoreValue): Versions {
    if x.ver in vs then vs else vs[x.ver := x.val]
  }

  function MergedAll(vs: Versions, values: seq<KVStoreValue>): Versions
    decreases |values|
  {
    if values == [] then vs else MergedAll(Merged(vs, values[0]), values[1..])
  }

  function AtLeast(vs: Versions, bound: nat): Versions {
    map v | v in vs && v >= bound :: vs[v]
  }

  /** The key with these versions, and without a list when there is none. */
  function WithVersions(m: map<string, Versions>, key: string, vs: Versions): map<string, Versions> {
    if vs == map[] then m - {key} else m[key := vs]
  }

  // ---------- the list refines the map ----------

  lemma {:induction false} AbsMembers(list: seq<KVStoreValue>, v: nat)
    ensures v in Abs(list) <==> exists i :: 0 <= i < |list| && list[i].ver == v
  {
    if list != [] {
      AbsMembers(list[1..], v);
      if i :| 0 <= i < |list| && list[i].ver == v {
        assert i > 0 ==> list[1..][i - 1].ver == v;
      }
    }
  }

  lemma {:induction false} AbsAppend(list: seq<KVStoreValue>, x: KVStoreValue)
    ensures Abs(list + [x]) == Merged(Abs(list), x)
  {
    if list == [] {
      assert list + [x] == [x];
    } else {
      AbsAppend(list[1..], x);
      assert (list + [x])[1..] == list[1..] + [x];
    }
  }

  /** Pushing a value adds its version unless it is there: a value already stored is never shadowed. */
  lemma PushedRefines(list: seq<KVStoreValue>, x: KVStoreValue)
    requires list != [] ==> FrontIsMax(list)
    ensures FrontIsMax(Pushed(list, x))
    ensures Abs(Pushed(list, x)) == Merged(Abs(list), x)
  {
    if list == [] || list[0].ver < x.ver {
      AbsMembers(list, x.ver);
      assert ([x] + list)[1..] == list;
    } else {
      AbsAppend(list, x);
    }
  }

  lemma {:induction false} PushedAllRefines(list: seq<KVStoreValue>, values: seq<KVStoreValue>)
    requires list != [] ==> FrontIsMax(list)
    ensures values != [] || list != [] ==> FrontIsMax(PushedAll(list, values))
    ensures Abs(PushedAll(list, values)) == MergedAll(Abs(list), values)
    decreases |values|
  {
    if values != [] {
      PushedRefines(list, values[0]);
      PushedAllRefines(Pushed(list, values[0]), values[1..]);
    }
  }

  lemma {:induction false} PurgedRefines(list: seq<KVStoreValue>, bound: nat)
    ensures Abs(Purged(list, bound)) == AtLeast(Abs(list), bound)
    ensures forall x :: x in Purged(list, bound) ==> x in list
  {
    if list != [] {
      var front, x := list[..|list| - 1], list[|list| - 1];
      PurgedRefines(front, bound);
      assert list == front + [x];
      AbsAppend(front, x);
      AbsAppend(Purged(front, bound), x);
      assert list[|list| - 1..] == [x];
      assert Purged(front, bound) + [] == Purged(front, bound);
    }
  }

  /** Each entry is judged by its own version and the rest keep their order. */
  lemma {:induction false} PurgedInOrder(list: seq<KVStoreValue>, more: seq<KVStoreValue>, x: KVStoreValue, bound: nat)
    ensures Purged(list + more, bound) == Purged(list, bound) + Purged(more, bound)
    ensures Purged([x], bound) == if x.ver < bound then [] else [x]
    decreases |more|
  {
    assert [x][..0] == [] && [x][0..] == [x] && Purged([], bound) == [];
    if more == [] {
      assert list + more == list;
    } else {
      var front, n := more[..|more| - 1], |list + more|;
      PurgedInOrder(list, front, x, bound);
      assert (list + more)[..n - 1] == list + front && (list + more)[n - 1..] == more[|more| - 1..];
    }
  }

  /** The newest version is the last to go, so a purge leaves it in front. */
  lemma {:induction false} PurgedKeepsFront(list: seq<KVStoreValue>, bound: nat)
    requires FrontIsMax(list)
    ensures if list[0].ver < bound then Purged(list, bound) == []
            else FrontIsMax(Purged(list, bound)) && Purged(list, bound)[0] == list[0]
    decreases |list|
  {
    PurgedRefines(list, bound);
    if |list| == 1 {
      assert list[..0] == [] && list[0..] == list;
    } else {
      PurgedKeepsFront(list[..|list| - 1], bound);
    }
  }

  // ---------- the store ----------

  class KVStore {
    var kv: map<string, seq<KVStoreValue>>

    constructor ()
      ensures kv == map[]
    {
      kv := map[];
    }

    /** `get`. */
    method Get(key: string, version: nat) returns (r: Result<Value, StoreError>)
      ensures r == if key !in kv then Err(KeyNotFound)
                   else if version !in Abs(kv[key]) then Err(VersionNotFound)
                   else Ok(Abs(kv[key])[version])
    {
      if key !in kv {
        return Err(KeyNotFound);
      }
      var list := kv[key];
      var i := 0;
      while i < |list|
        invariant 0 <= i <= |list|
        invariant version in Abs(list) <==> version in Abs(list[i..])
        invariant version in Abs(list) ==> Abs(list)[version] == Abs(list[i..])[version]
      {
        assert list[i..][1..] == list[i + 1..];
        if list[i].ver == version {
          return Ok(list[i].val);
        }
        i := i + 1;
      }
      return Err(VersionNotFound);
    }

    /** `set`. */
    method Set(key: string, version: nat, value: Value) returns (r: Result<(), StoreError>)
      requires WellFormed(kv)
      modifies this
      ensures (kv, r) == Apply(old(kv), Op.Set(key, version, value))
    {
      if key !in kv {
        kv := kv[key := [KVStoreValue(version, value)]];
        assert kv[key] + [] == kv[key];
      } else {
        if kv[key][0].ver >= version {
          return Err(LowerVersion);
        }
        kv := kv[key := [KVStoreValue(version, value)] + kv[key]];
      }
      return Ok(());
    }

    /** `bulkSet`. */
    method BulkSet(key: string, values: seq<KVStoreValue>) returns (r: Result<(), StoreError>)
      requires WellFormed(kv)
      modifies this
      ensures (kv, r) == Apply(old(kv), Op.BulkSet(key, values))
    {
      if |values| == 0 {
        return Err(EmptyList);
      }
      ghost var before := ListOf(kv, key);
      var i := 0;
      while i < |values|
        invariant 0 <= i <= |values|
        invariant key in kv ==> kv[key] != []
        invariant i > 0 ==> key in kv
        invariant kv == if i == 0 then old(kv) else old(kv)[key := ListOf(kv, key)]
        invariant PushedAll(ListOf(kv, key), values[i..]) == PushedAll(before, values)
      {
        assert values[i..][1..] == values[i + 1..];
        ghost var list := ListOf(kv, key);
        if key !in kv {
          kv := kv[key := [values[i]]];
          assert [values[i]] + list == [values[i]];
        } else if kv[key][0].ver >= values[i].ver {
          kv := kv[key := kv[key] + [values[i]]];
        } else {
          kv := kv[key := [values[i]] + kv[key]];
        }
        assert kv[key] == Pushed(list, values[i]);
        i := i + 1;
      }
      return Ok(());
    }

    /** The loop of `purgeVersions`, which removes old entries in place. */
    static method PurgeList(was: seq<KVStoreValue>, maxVersion: nat) returns (list: seq<KVStoreValue>)
      ensures list == Purged(was, maxVersion)
    {
      list := was;
      ghost var seen := 0;
      var i := 0;
      while i < |list|
        invariant 0 <= seen <= |was|
        invariant i <= |list| && list[..i] == Purged(was[..seen], maxVersion) && list[i..] == was[seen..]
        decreases |was| - seen
      {
        PurgedNext(was, seen, maxVersion);
        hide Purged;
        assert list[i] == was[seen];
        if list[i].ver < maxVersion {
          list := list[..i] + list[i + 1..];
        } else {
          i := i + 1;
        }
        seen := seen + 1;
      }
      assert was[..seen] == was && list[..i] == list;
    }

    static lemma PurgedNext(was: seq<KVStoreValue>, seen: nat, maxVersion: nat)
      requires seen < |was|
      ensures Purged(was[..seen + 1], maxVersion)
           == Purged(was[..seen], maxVersion) + (if was[seen].ver < maxVersion then [] else [was[seen]])
    {
      assert was[..seen + 1][..seen] == was[..seen] && was[..seen + 1][seen..] == [was[seen]];
    }

    /** `purgeVersions`: a key goes with its last entry. */
    method PurgeVersions(key: string, maxVersion: nat) returns (r: Result<(), StoreError>)
      modifies this
      ensures (kv, r) == Apply(old(kv), Op.PurgeVersions(key, maxVersion))
    {
      if key !in kv {
        return Err(KeyNotFound);
      }
      var list := PurgeList(kv[key], maxVersion);
      ghost var before := kv;
      kv := kv[key := list];
      if |list| == 0 {
        kv := kv - {key};
        assert kv == before - {key};
      }
      return Ok(());
    }
  }

  // ---------- runs ----------

  datatype Op =
    | Set(key: string, version: nat, value: Value)
    | BulkSet(key: string, values: seq<KVStoreValue>)
    | PurgeVersions(key: string, maxVersion: nat)

  function ListOf(kv: map<string, seq<KVStoreValue>>, key: string): seq<KVStoreValue> {
    if key in kv then kv[key] else []
  }

  /** One operation on the lists. */
  function Apply(kv: map<string, seq<KVStoreValue>>, op: Op): (map<string, seq<KVStoreValue>>, Result<(), StoreError>) {
    match op
    case Set(key, version, value) =>
      if key in kv && kv[key] != [] && kv[key][0].ver >= version then (kv, Err(LowerVersion))
      else (kv[key := [KVStoreValue(version, value)] + ListOf(kv, key)], Ok(()))
    case BulkSet(key, values) =>
      if values == [] then (kv, Err(EmptyList)) else (kv[key := PushedAll(ListOf(kv, key), values)], Ok(()))
    case PurgeVersions(key, maxVersion) =>
      if key !in kv then (kv, Err(KeyNotFound))
      else if Purged(kv[key], maxVersion) == [] then (kv - {key}, Ok(()))
      else (kv[key := Purged(kv[key], maxVersion)], Ok(()))
  }

  /** The same operation on the map of maps. */
  ghost function ApplyAbs(m: map<string, Versions>, op: Op): (map<string, Versions>, Result<(), StoreError>) {
    match op
    case Set(key, version, value) =>
      if !Newest(m, key, version) then (m, Err(LowerVersion))
      else (m[key := VersionsOf(m, key)[version := value]], Ok(()))
    case BulkSet(key, values) =>
      if values == [] then (m, Err(EmptyList)) else (m[key := MergedAll(VersionsOf(m, key), values)], Ok(()))
    case PurgeVersions(key, maxVersion) =>
      if key !in m then (m, Err(KeyNotFound)) else (WithVersions(m, key, AtLeast(m[key], maxVersion)), Ok(()))
  }

  /** The front's version decides alone whether a version may be set. */
  lemma FrontDecides(list: seq<KVStoreValue>, version: nat)
    requires FrontIsMax(list)
    ensures list[0].ver in Abs(list)
    ensures list[0].ver < version <==> forall v :: v in Abs(list) ==> v < version
  {
    AbsMembers(list, list[0].ver);
    forall v: nat ensures v in Abs(list) ==> v <= list[0].ver {
      AbsMembers(list, v);
    }
  }

  lemma AbsEmptyIff(list: seq<KVStoreValue>)
    ensures Abs(list) == map[] <==> list == []
  {
    if list != [] {
      assert list[0].ver in Abs(list);
    }
  }

  lemma SetRefines(kv: map<string, seq<KVStoreValue>>, op: Op)
    requires WellFormed(kv) && op.Set?
    ensures WellFormed(Apply(kv, op).0)
    ensures AbsStore(Apply(kv, op).0) == ApplyAbs(AbsStore(kv), op).0
    ensures Apply(kv, op).1 == ApplyAbs(AbsStore(kv), op).1
  {
    var list := ListOf(kv, op.key);
    if list != [] {
      FrontDecides(list, op.version);
    }
    assert ([KVStoreValue(op.version, op.value)] + list)[1..] == list;
    hide Abs;
    assert VersionsOf(AbsStore(kv), op.key) == Abs(list) by {
      AbsEmptyIff(list);
    }
  }

  lemma BulkSetRefines(kv: map<string, seq<KVStoreValue>>, op: Op)
    requires WellFormed(kv) && op.BulkSet?
    ensures WellFormed(Apply(kv, op).0)
    ensures AbsStore(Apply(kv, op).0) == ApplyAbs(AbsStore(kv), op).0
    ensures Apply(kv, op).1 == ApplyAbs(AbsStore(kv), op).1
  {
    var list := ListOf(kv, op.key);
    AbsEmptyIff(list);
    PushedAllRefines(list, op.values);
    hide Abs, FrontIsMax, PushedAll, MergedAll;
  }

  lemma PurgeRefines(kv: map<string, seq<KVStoreValue>>, op: Op)
    requires WellFormed(kv) && op.PurgeVersions?
    ensures WellFormed(Apply(kv, op).0)
    ensures AbsStore(Apply(kv, op).0) == ApplyAbs(AbsStore(kv), op).0
    ensures Apply(kv, op).1 == ApplyAbs(AbsStore(kv), op).1
  {
    if op.key in kv {
      var list := kv[op.key];
      PurgedKeepsFront(list, op.maxVersion);
      PurgedRefines(list, op.maxVersion);
      AbsEmptyIff(Purged(list, op.maxVersion));
      PurgedIsAbs(kv, op.key, Purged(list, op.maxVersion), AtLeast(Abs(list), op.maxVersion));
      hide Abs, Purged, AtLeast, FrontIsMax;
    }
  }

  lemma PurgedIsAbs(kv: map<string, seq<KVStoreValue>>, key: string, list: seq<KVStoreValue>, vs: Versions)
    requires Abs(list) == vs && (vs == map[] <==> list == [])
    ensures AbsStore(if list == [] then kv - {key} else kv[key := list]) == WithVersions(AbsStore(kv), key, vs)
  {
  }

  /** An operation on the lists is the operation on the map of maps, errors included, and keeps the front newest. */
  lemma ApplyRefines(kv: map<string, seq<KVStoreValue>>, op: Op)
    requires WellFormed(kv)
    ensures WellFormed(Apply(kv, op).0)
    ensures AbsStore(Apply(kv, op).0) == ApplyAbs(AbsStore(kv), op).0
    ensures Apply(kv, op).1 == ApplyAbs(AbsStore(kv), op).1
  {
    hide *;
    match op {
      case Set(_, _, _) => SetRefines(kv, op);
      case BulkSet(_, _) => BulkSetRefines(kv, op);
      case PurgeVersions(_, _) => PurgeRefines(kv, op);
    }
  }

  function Run(kv: map<string, seq<KVStoreValue>>, ops: seq<Op>): map<string, seq<KVStoreValue>>
    decreases |ops|
  {
    if ops == [] then kv else Run(Apply(kv, ops[0]).0, ops[1..])
  }

  ghost function RunAbs(m: map<string, Versions>, ops: seq<Op>): map<string, Versions>
    decreases |ops|
  {
    if ops == [] then m else RunAbs(ApplyAbs(m, ops[0]).0, ops[1..])
  }

  /** Any run of sets, bulk sets and purges on the lists is the run on the map of maps. */
  lemma {:induction false} RunRefines(kv: map<string, seq<KVStoreValue>>, ops: seq<Op>)
    requires WellFormed(kv)
    ensures WellFormed(Run(kv, ops)) && AbsStore(Run(kv, ops)) == RunAbs(AbsStore(kv), ops)
    decreases |ops|
  {
    hide Apply, ApplyAbs, WellFormed, AbsStore;
    if ops != [] {
      ApplyRefines(kv, ops[0]);
      RunRefines(Apply(kv, ops[0]).0, ops[1..]);
    }
  }

  lemma {:induction false} MergedAllExtends(vs: Versions, values: seq<KVStoreValue>)
    ensures vs.Keys <= MergedAll(vs, values).Keys
    ensures forall v :: v in vs ==> MergedAll(vs, values)[v] == vs[v]
    decreases |values|
  {
    if values != [] {
      MergedAllExtends(Merged(vs, values[0]), values[1..]);
    }
  }

  /** A merged version was there before or came with one of the values. */
  lemma {:induction false} MergedAllSource(vs: Versions, values: seq<KVStoreValue>, v: nat)
    requires v in MergedAll(vs, values)
    ensures v in vs || KVStoreValue(v, MergedAll(vs, values)[v]) in values
    decreases |values|
  {
    if values != [] {
      MergedAllSource(Merged(vs, values[0]), values[1..], v);
      if v !in vs && v == values[0].ver {
        MergedAllExtends(Merged(vs, values[0]), values[1..]);
      }
    }
  }

  /** No operation changes a stored version's value, and only a purge above a version removes it. */
  lemma ApplyKeepsValue(m: map<string, Versions>, op: Op, key: string, v: nat)
    requires v in VersionsOf(m, key)
    ensures var after := VersionsOf(ApplyAbs(m, op).0, key);
            && (v in after <==> !(op.PurgeVersions? && op.key == key && v < op.maxVersion))
            && (v in after ==> after[v] == m[key][v])
  {
    if op.BulkSet? {
      MergedAllExtends(VersionsOf(m, op.key), op.values);
    }
  }

  ghost predicate NoPurgeAbove(ops: seq<Op>, key: string, v: nat) {
    forall i :: 0 <= i < |ops| && ops[i].PurgeVersions? && ops[i].key == key ==> ops[i].maxVersion <= v
  }

  /** A stored version keeps its value through every run that does not purge above it. */
  lemma {:induction false} RunKeepsValue(m: map<string, Versions>, ops: seq<Op>, key: string, v: nat)
    requires v in VersionsOf(m, key) && NoPurgeAbove(ops, key, v)
    ensures v in VersionsOf(RunAbs(m, ops), key) && RunAbs(m, ops)[key][v] == m[key][v]
    decreases |ops|
  {
    hide ApplyAbs;
    if ops != [] {
      ApplyKeepsValue(m, ops[0], key, v);
      RunKeepsValue(ApplyAbs(m, ops[0]).0, ops[1..], key, v);
    }
  }

  /** The list itself need not be sorted: only its front is known. */
  lemma UnsortedList(a: Value, b: Value, c: Value)
    ensures PushedAll([KVStoreValue(3, a)], [KVStoreValue(1, b), KVStoreValue(2, c)])
         == [KVStoreValue(3, a), KVStoreValue(1, b), KVStoreValue(2, c)]
  {
    var x, y, z := KVStoreValue(3, a), KVStoreValue(1, b), KVStoreValue(2, c);
    assert [y, z][1..] == [z] && [z][1..] == [];
    assert PushedAll([x], [y, z]) == PushedAll([x] + [y], [z]) == PushedAll([x] + [y] + [z], []);
  }
}
