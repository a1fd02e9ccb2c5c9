/** `RedisMemcacheService`: the cache facade, with every operation a pure
    transition of the store. Fresh versions, which the source draws with
    `UUID.randomUUID()`, are inputs: one per key or batch entry, used only
    where the source would draw one. */
module MemcacheService {
  import opened Results
  import opened Bytes
  import opened LinkedMaps
  import opened Envelope
  import opened RedisStore

  /* ---------------------------------------------------------------- reads */

  /** `fromCacheValue`: a missing key, an empty blob and a blob that does not
      decode are all "nothing cached"; decoding never escapes as an error. */
  function FromCacheValue<T>(c: Codec<T>, thing: Option<seq<byte>>): (r: Option<IdentifiableValue<T>>)
    ensures thing.None? ==> r.None?
    ensures thing.Some? && |thing.value| == 0 ==> r.None?
    ensures thing.Some? && |thing.value| > 0 ==>
              (r.Some? <==> FromRedisString(c, thing).Success?)
    ensures r.Some? ==> FromRedisString(c, thing) == Success(r.value)
  {
    match thing
    case None => None
    case Some(bytes) =>
      if |bytes| == 0 then None
      else
        match FromRedisString(c, thing)
        case Failure(_) => None
        case Success(iv) => Some(iv)
  }

  /** `getValue`: the decoded envelope stored at `k`, if there is one. */
  function GetValue<T>(c: Codec<T>, s: Store, k: Key): (r: Option<IdentifiableValue<T>>)
    ensures k !in s ==> r.None?
    ensures k in s && |s[k].blob| < VERSION_BYTES ==> r.None?
    ensures k in s && |s[k].blob| >= VERSION_BYTES && c.deserialize(s[k].blob[VERSION_BYTES..]).Some? ==> r.Some?
    ensures r.Some? ==>
              && k in s && |s[k].blob| >= VERSION_BYTES
              && r.value.version == ReadVersion(s[k].blob[..VERSION_BYTES])
              && c.deserialize(s[k].blob[VERSION_BYTES..]) == Some(r.value.value)
  {
    FromCacheValue(c, RedisStore.Get(s, k))
  }

  /** `get`: the cached value, or `Null` on any kind of miss. A stored null
      and a miss look the same to the caller. */
  function Get<T>(c: Codec<T>, s: Store, k: Key): (r: Value<T>)
    ensures k !in s ==> r == Null
    ensures k in s && |s[k].blob| < VERSION_BYTES ==> r == Null
    ensures k in s && |s[k].blob| >= VERSION_BYTES ==>
              match c.deserialize(s[k].blob[VERSION_BYTES..])
              case None => r == Null
              case Some(v) => r == v
  {
    match GetValue(c, s, k)
    case None => Null
    case Some(iv) => iv.value
  }

  /* --------------------------------------------------------------- writes */

  /** `putValue`: a plain `SET` of the envelope, with no time to live. */
  function PutValue<T>(c: Codec<T>, s: Store, k: Key, iv: IdentifiableValue<T>): (r: Store)
    ensures Lookup(r, k) == Some(Entry(ToRedisString(c, iv), NoExpiry))
    ensures forall k' :: k' != k ==> Lookup(r, k') == Lookup(s, k')
  {
    Set(s, k, ToRedisString(c, iv), NoExpiry)
  }

  /** An entry written from an envelope whose value the codec round-trips
      reads back as that envelope, whatever its time to live. */
  lemma GetValueOfEnvelope<T>(c: Codec<T>, s: Store, k: Key, iv: IdentifiableValue<T>, e: Expiry)
    requires Lookup(s, k) == Some(Entry(ToRedisString(c, iv), e))
    requires RoundTrips(c, iv.value)
    ensures GetValue(c, s, k) == Some(iv)
    ensures Get(c, s, k) == iv.value
  {
    EnvelopeRoundTrip(c, iv);
  }

  /** `put`: stamps the value with a new version and overwrites. */
  function Put<T>(c: Codec<T>, s: Store, k: Key, x: Value<T>, newVersion: Uuid): (r: Store)
    ensures Lookup(r, k) == Some(Entry(ToRedisString(c, IdentifiableValue(newVersion, x)), NoExpiry))
    ensures |r[k].blob| >= VERSION_BYTES && ReadVersion(r[k].blob[..VERSION_BYTES]) == newVersion
    ensures forall k' :: k' != k ==> Lookup(r, k') == Lookup(s, k')
  {
    PutValue(c, s, k, Stamp(c, x, newVersion))
  }

  /** A `put` is read back by `get`, nulls included, and leaves every other
      key as it was. */
  lemma GetAfterPut<T>(c: Codec<T>, s: Store, k: Key, x: Value<T>, newVersion: Uuid)
    requires RoundTrips(c, x)
    ensures Get(c, Put(c, s, k, x, newVersion), k) == x
    ensures GetValue(c, Put(c, s, k, x, newVersion), k) == Some(IdentifiableValue(newVersion, x))
    ensures forall k' :: k' != k ==> Get(c, Put(c, s, k, x, newVersion), k') == Get(c, s, k')
  {
    var r := Put(c, s, k, x, newVersion);
    GetValueOfEnvelope(c, r, k, IdentifiableValue(newVersion, x), NoExpiry);
    forall k' | k' != k
      ensures Get(c, r, k') == Get(c, s, k')
    {
      assert Lookup(r, k') == Lookup(s, k');
    }
  }

  /** The keys a batch names. */
  function KeySet<X>(batch: seq<(Key, X)>): (ks: set<Key>)
    ensures forall i :: 0 <= i < |batch| ==> batch[i].0 in ks
  {
    if |batch| == 0 then {}
    else KeySet(batch[..|batch| - 1]) + {batch[|batch| - 1].0}
  }

  /** A key no entry names is not among the batch's keys. */
  lemma {:induction false} NotInKeySet<X>(batch: seq<(Key, X)>, k: Key)
    requires forall i :: 0 <= i < |batch| ==> batch[i].0 != k
    ensures k !in KeySet(batch)
  {
    if |batch| > 0 {
      NotInKeySet(batch[..|batch| - 1], k);
    }
  }

  /** No key appears twice in the batch, as in the `Map` the source is given. */
  predicate DistinctKeys<X>(batch: seq<(Key, X)>) {
    forall i, j :: 0 <= i < j < |batch| ==> batch[i].0 != batch[j].0
  }

  /** `putAll`: a `put` per entry, in iteration order, `versions[i]` stamping entry `i`. */
  function PutAll<T>(c: Codec<T>, s: Store, values: seq<(Key, Value<T>)>, versions: seq<Uuid>): (r: Store)
    requires |versions| == |values|
    ensures r.Keys == s.Keys + KeySet(values)
    ensures forall k :: k !in KeySet(values) ==> Lookup(r, k) == Lookup(s, k)
  {
    if |values| == 0 then s
    else
      var n := |values| - 1;
      var prev := PutAll(c, s, values[..n], versions[..n]);
      Put(c, prev, values[n].0, values[n].1, versions[n])
  }

  /** With distinct keys every entry of a `putAll` ends up stored with its
      own fresh version, and reads back through `get`. */
  lemma {:induction false} PutAllStoresEach<T>(c: Codec<T>, s: Store, values: seq<(Key, Value<T>)>, versions: seq<Uuid>)
    requires |versions| == |values|
    requires DistinctKeys(values)
    ensures forall i :: 0 <= i < |values| ==>
              Lookup(PutAll(c, s, values, versions), values[i].0)
                == Some(Entry(ToRedisString(c, IdentifiableValue(versions[i], values[i].1)), NoExpiry))
  {
    if |values| > 0 {
      var n := |values| - 1;
      var pv, pn := values[..n], versions[..n];
      var prev := PutAll(c, s, pv, pn);
      var r := PutAll(c, s, values, versions);
      assert r == Put(c, prev, values[n].0, values[n].1, versions[n]);
      PutAllStoresEach(c, s, pv, pn);
      forall i | 0 <= i < n
        ensures Lookup(r, values[i].0)
                  == Some(Entry(ToRedisString(c, IdentifiableValue(versions[i], values[i].1)), NoExpiry))
      {
        assert pv[i] == values[i] && pn[i] == versions[i];
        assert values[i].0 != values[n].0;
        assert Lookup(r, values[i].0) == Lookup(prev, values[i].0);
      }
    }
  }

  /** With distinct keys every value of a `putAll` that the codec round-trips
      reads back through `get`. */
  lemma GetAfterPutAll<T>(c: Codec<T>, s: Store, values: seq<(Key, Value<T>)>, versions: seq<Uuid>)
    requires |versions| == |values|
    requires DistinctKeys(values)
    ensures forall i :: 0 <= i < |values| && RoundTrips(c, values[i].1) ==>
              Get(c, PutAll(c, s, values, versions), values[i].0) == values[i].1
  {
    var r := PutAll(c, s, values, versions);
    PutAllStoresEach(c, s, values, versions);
    forall i | 0 <= i < |values| && RoundTrips(c, values[i].1)
      ensures Get(c, r, values[i].0) == values[i].1
    {
      GetValueOfEnvelope(c, r, values[i].0, IdentifiableValue(versions[i], values[i].1), NoExpiry);
    }
  }

  /* -------------------------------------------------------------- deletes */

  /** `delete`. */
  function Delete(s: Store, k: Key): (r: Store)
    ensures k !in r
    ensures forall k' :: k' != k ==> Lookup(r, k') == Lookup(s, k')
  {
    Del(s, k)
  }

  /** `deleteAll`: every listed key is gone afterwards, present or not before;
      every other key is untouched. */
  function DeleteAll(s: Store, keys: seq<Key>): (r: Store)
    ensures forall k :: Lookup(r, k) == if k in keys then None else Lookup(s, k)
  {
    if |keys| == 0 then s
    else
      var n := |keys| - 1;
      assert keys == keys[..n] + [keys[n]];
      Delete(DeleteAll(s, keys[..n]), keys[n])
  }

  /* ----------------------------------------------------- identifiable reads */

  /** `getIdentifiable`: the decoded envelope when there is one, and no write;
      otherwise a null-valued sentinel with a new version is stored first, so
      that a later CAS has a version to compare against. A corrupt or empty
      blob counts as absent and is overwritten by the sentinel. */
  function GetIdentifiable<T>(c: Codec<T>, s: Store, k: Key, newVersion: Uuid): (r: (Store, IdentifiableValue<T>))
    ensures GetValue(c, s, k).Some? ==> r.0 == s && r.1 == GetValue(c, s, k).value
    ensures GetValue(c, s, k).None? ==>
              && r.1 == IdentifiableValue(newVersion, Null)
              && Lookup(r.0, k) == Some(Entry(ToRedisString(c, r.1), NoExpiry))
    ensures k in r.0
    ensures forall k' :: k' != k ==> Lookup(r.0, k') == Lookup(s, k')
  {
    match GetValue(c, s, k)
    case Some(found) => (s, found)
    case None =>
      var sentinel := Stamp(c, Null, newVersion);
      (PutValue(c, s, k, sentinel), sentinel)
  }

  datatype Fetched<T> = Fetched(store: Store, handles: LinkedMap<Key, IdentifiableValue<T>>)

  /** `getIdentifiables`: a `getIdentifiable` per key, in order, collected
      into a `LinkedHashMap`; `versions[i]` is the sentinel version for key `i`. */
  function GetIdentifiables<T>(c: Codec<T>, s: Store, keys: seq<Key>, versions: seq<Uuid>): (r: Fetched<T>)
    requires |versions| == |keys|
    ensures forall k :: k in keys ==> k in r.store && k in r.handles.entries
    ensures forall k :: k !in keys ==> Lookup(r.store, k) == Lookup(s, k)
  {
    if |keys| == 0 then Fetched(s, Empty())
    else
      var n := |keys| - 1;
      assert keys == keys[..n] + [keys[n]];
      var prev := GetIdentifiables(c, s, keys[..n], versions[..n]);
      var (store, iv) := GetIdentifiable(c, prev.store, keys[n], versions[n]);
      Fetched(store, LinkedMaps.Put(prev.handles, keys[n], iv))
  }

  /** The handles come back in first-occurrence order, one per distinct key. */
  lemma {:induction false} GetIdentifiablesOrder<T>(c: Codec<T>, s: Store, keys: seq<Key>, versions: seq<Uuid>)
    requires |versions| == |keys|
    ensures Valid(GetIdentifiables(c, s, keys, versions).handles)
    ensures GetIdentifiables(c, s, keys, versions).handles.order == Dedup(keys)
  {
    if |keys| > 0 {
      var n := |keys| - 1;
      var prev := GetIdentifiables(c, s, keys[..n], versions[..n]);
      GetIdentifiablesOrder(c, s, keys[..n], versions[..n]);
      var (store, iv) := GetIdentifiable(c, prev.store, keys[n], versions[n]);
      PutValid(prev.handles, keys[n], iv);
    }
  }

  /** The first position of `k` in `keys`. */
  function IndexOf(keys: seq<Key>, k: Key): (i: nat)
    requires k in keys
    ensures i < |keys| && keys[i] == k
    ensures forall j :: 0 <= j < i ==> keys[j] != k
  {
    if keys[0] == k then 0 else 1 + IndexOf(keys[1..], k)
  }

  /** Extending the key list at the end does not move a first occurrence. */
  lemma IndexOfPrefix(keys: seq<Key>, n: nat, k: Key)
    requires n <= |keys| && k in keys[..n]
    ensures IndexOf(keys, k) == IndexOf(keys[..n], k)
  {
    var i := IndexOf(keys[..n], k);
    assert keys[i] == k;
  }

  /** What `getIdentifiables` promises for one requested key `k`, given the
      store `s` before the call and `r` after it: `k` has a handle; what is
      stored at `k` afterwards decodes to that handle; if `k` held a decodable
      envelope, the handle is that envelope and `k` was not written; otherwise
      the handle is a null sentinel stamped with the version supplied at the
      first occurrence of `k`. */
  ghost predicate HandleFor<T>(c: Codec<T>, s: Store, keys: seq<Key>, versions: seq<Uuid>, r: Fetched<T>, k: Key)
    requires |versions| == |keys| && k in keys
  {
    && k in r.handles.entries
    && GetValue(c, r.store, k) == Some(r.handles.entries[k])
    && (GetValue(c, s, k).Some? ==>
          r.handles.entries[k] == GetValue(c, s, k).value && Lookup(r.store, k) == Lookup(s, k))
    && (GetValue(c, s, k).None? ==>
          r.handles.entries[k] == IdentifiableValue(versions[IndexOf(keys, k)], Null))
  }

  /** `getIdentifiables` keeps the promise of `HandleFor` for every requested
      key, duplicates included, whenever the codec round-trips a null. */
  lemma {:induction false} GetIdentifiablesHandles<T>(c: Codec<T>, s: Store, keys: seq<Key>, versions: seq<Uuid>)
    requires |versions| == |keys|
    requires RoundTrips(c, Null)
    ensures forall k :: k in keys ==> HandleFor(c, s, keys, versions, GetIdentifiables(c, s, keys, versions), k)
  {
    if |keys| > 0 {
      var n := |keys| - 1;
      var pk, pv := keys[..n], versions[..n];
      var prev := GetIdentifiables(c, s, pk, pv);
      GetIdentifiablesHandles(c, s, pk, pv);
      forall k | k in keys
        ensures HandleFor(c, s, keys, versions, GetIdentifiables(c, s, keys, versions), k)
      {
        KeyHandleStep(c, s, keys, versions, prev, k);
      }
    }
  }

  /** One step of `getIdentifiables`: the handles so far, then the last key. */
  lemma GetIdentifiablesUnfold<T>(c: Codec<T>, s: Store, keys: seq<Key>, versions: seq<Uuid>)
    requires |versions| == |keys| > 0
    ensures var n := |keys| - 1;
            var prev := GetIdentifiables(c, s, keys[..n], versions[..n]);
            var step := GetIdentifiable(c, prev.store, keys[n], versions[n]);
            GetIdentifiables(c, s, keys, versions) == Fetched(step.0, LinkedMaps.Put(prev.handles, keys[n], step.1))
  {
  }

  /** The inductive step of `GetIdentifiablesHandles` for one key. */
  lemma KeyHandleStep<T>(c: Codec<T>, s: Store, keys: seq<Key>, versions: seq<Uuid>,
                         prev: Fetched<T>, k: Key)
    requires |versions| == |keys| > 0
    requires prev == GetIdentifiables(c, s, keys[..|keys| - 1], versions[..|keys| - 1])
    requires RoundTrips(c, Null)
    requires k in keys
    requires k in keys[..|keys| - 1] ==>
               HandleFor(c, s, keys[..|keys| - 1], versions[..|keys| - 1], prev, k)
    ensures HandleFor(c, s, keys, versions, GetIdentifiables(c, s, keys, versions), k)
  {
    if k == keys[|keys| - 1] {
      LastKeyHandle(c, s, keys, versions, prev, GetIdentifiable(c, prev.store, k, versions[|keys| - 1]));
    } else {
      EarlierKeyHandle(c, s, keys, versions, prev, k);
    }
  }

  /** The inductive step of `GetIdentifiablesHandles` for a key other than
      the last: the last key's step leaves it alone. */
  lemma EarlierKeyHandle<T>(c: Codec<T>, s: Store, keys: seq<Key>, versions: seq<Uuid>,
                            prev: Fetched<T>, k: Key)
    requires |versions| == |keys| > 0
    requires prev == GetIdentifiables(c, s, keys[..|keys| - 1], versions[..|keys| - 1])
    requires k in keys && k != keys[|keys| - 1]
    requires k in keys[..|keys| - 1] ==> HandleFor(c, s, keys[..|keys| - 1], versions[..|keys| - 1], prev, k)
    ensures HandleFor(c, s, keys, versions, GetIdentifiables(c, s, keys, versions), k)
  {
    GetIdentifiablesUnfold(c, s, keys, versions);
    var n := |keys| - 1;
    var step := GetIdentifiable(c, prev.store, keys[n], versions[n]);
    var i := IndexOf(keys, k);
    assert keys[..n][i] == k;
    IndexOfPrefix(keys, n, k);
    assert Lookup(step.0, k) == Lookup(prev.store, k);
    assert GetValue(c, step.0, k) == GetValue(c, prev.store, k);
  }

  /** The inductive step of `GetIdentifiablesHandles` for the last key. */
  lemma LastKeyHandle<T>(c: Codec<T>, s: Store, keys: seq<Key>, versions: seq<Uuid>,
                         prev: Fetched<T>, step: (Store, IdentifiableValue<T>))
    requires |versions| == |keys| > 0
    requires RoundTrips(c, Null)
    requires prev == GetIdentifiables(c, s, keys[..|keys| - 1], versions[..|keys| - 1])
    requires keys[|keys| - 1] in keys[..|keys| - 1] ==>
               HandleFor(c, s, keys[..|keys| - 1], versions[..|keys| - 1], prev, keys[|keys| - 1])
    requires step == GetIdentifiable(c, prev.store, keys[|keys| - 1], versions[|keys| - 1])
    ensures HandleFor(c, s, keys, versions, GetIdentifiables(c, s, keys, versions), keys[|keys| - 1])
  {
    GetIdentifiablesUnfold(c, s, keys, versions);
    var n := |keys| - 1;
    var pk, pv := keys[..n], versions[..n];
    var kn := keys[n];
    if kn in pk {
      assert HandleFor(c, s, pk, pv, prev, kn);
      assert step.0 == prev.store;
      IndexOfPrefix(keys, n, kn);
    } else {
      assert Lookup(prev.store, kn) == Lookup(s, kn);
      assert GetValue(c, prev.store, kn) == GetValue(c, s, kn);
      assert IndexOf(keys, kn) == n;
      if GetValue(c, s, kn).None? {
        GetValueOfEnvelope(c, step.0, kn, step.1, NoExpiry);
      }
    }
  }

  /* ---------------------------------------------------------- batch reads */

  /** Position of the first reply `fromRedisString` rejects, or the number of
      replies when it accepts them all. */
  function FirstUndecodable<T>(c: Codec<T>, fetched: seq<Option<seq<byte>>>): (j: nat)
    ensures j <= |fetched|
    ensures forall i :: 0 <= i < j ==> FromRedisString(c, fetched[i]).Success?
    ensures j < |fetched| ==> FromRedisString(c, fetched[j]).Failure?
  {
    if |fetched| == 0 then 0
    else
      var n := |fetched| - 1;
      var jp := FirstUndecodable(c, fetched[..n]);
      if jp < n then jp
      else if FromRedisString(c, fetched[n]).Success? then |fetched|
      else n
  }

  /** The decode loop of `getAll`: `fromRedisString` on each fetched reply, in
      order, the first failure escaping. */
  function DecodeAll<T>(c: Codec<T>, keys: seq<Key>, fetched: seq<Option<seq<byte>>>): (r: Result<LinkedMap<Key, Value<T>>, DecodeError>)
    requires |fetched| == |keys|
    ensures r.Success? <==> FirstUndecodable(c, fetched) == |fetched|
    ensures r.Failure? ==> FromRedisString(c, fetched[FirstUndecodable(c, fetched)]) == Failure(r.error)
  {
    if |keys| == 0 then Success(Empty())
    else
      var n := |keys| - 1;
      match DecodeAll(c, keys[..n], fetched[..n])
      case Failure(e) => Failure(e)
      case Success(m) =>
        match FromRedisString(c, fetched[n])
        case Failure(e) => Failure(e)
        case Success(iv) => Success(LinkedMaps.Put(m, keys[n], iv.value))
  }

  /** A successful decode loop lists each key once, in first-occurrence order. */
  lemma {:induction false} DecodeAllOrder<T>(c: Codec<T>, keys: seq<Key>, fetched: seq<Option<seq<byte>>>)
    requires |fetched| == |keys|
    requires DecodeAll(c, keys, fetched).Success?
    ensures Valid(DecodeAll(c, keys, fetched).value)
    ensures DecodeAll(c, keys, fetched).value.order == Dedup(keys)
  {
    if |keys| > 0 {
      var n := |keys| - 1;
      DecodeAllOrder(c, keys[..n], fetched[..n]);
      PutValid(DecodeAll(c, keys[..n], fetched[..n]).value, keys[n], FromRedisString(c, fetched[n]).value.value);
    }
  }

  /** Why `getAll` throws: Redis rejected the `MGET`, or a reply did not decode. */
  datatype GetAllError = Rejected(command: CommandError) | Undecodable(decode: DecodeError)

  /** The decode loop over replies fetched from `s` maps each key to the
      value decoded from its own blob. */
  lemma {:induction false} DecodeAllValues<T>(c: Codec<T>, s: Store, keys: seq<Key>, fetched: seq<Option<seq<byte>>>)
    requires |fetched| == |keys|
    requires forall i :: 0 <= i < |keys| ==> fetched[i] == RedisStore.Get(s, keys[i])
    requires DecodeAll(c, keys, fetched).Success?
    ensures forall i :: 0 <= i < |keys| ==>
              && keys[i] in DecodeAll(c, keys, fetched).value.entries
              && DecodeAll(c, keys, fetched).value.entries[keys[i]]
                   == FromRedisString(c, RedisStore.Get(s, keys[i])).value.value
  {
    if |keys| > 0 {
      var n := |keys| - 1;
      var pk, pf := keys[..n], fetched[..n];
      forall i | 0 <= i < n
        ensures pf[i] == RedisStore.Get(s, pk[i])
      {
        assert pf[i] == fetched[i] && pk[i] == keys[i];
      }
      DecodeAllValues(c, s, pk, pf);
      var m := DecodeAll(c, pk, pf).value;
      var last := FromRedisString(c, fetched[n]).value.value;
      assert DecodeAll(c, keys, fetched).value == LinkedMaps.Put(m, keys[n], last);
      forall i | 0 <= i < n
        ensures && keys[i] in DecodeAll(c, keys, fetched).value.entries
                && DecodeAll(c, keys, fetched).value.entries[keys[i]]
                     == FromRedisString(c, RedisStore.Get(s, keys[i])).value.value
      {
        assert pk[i] == keys[i];
      }
    }
  }

  /** `getAll`: one `MGET`, then a strict decode. There is no miss fallback:
      a missing key (a null reply) or an undecodable blob fails the batch, and
      so does an empty batch, whose `MGET` Redis rejects. */
  function GetAll<T>(c: Codec<T>, s: Store, keys: seq<Key>): (r: Result<LinkedMap<Key, Value<T>>, GetAllError>)
    ensures r.Failure? && r.error.Rejected? <==> |keys| == 0
    ensures r.Success? <==>
              && |keys| > 0
              && forall i :: 0 <= i < |keys| ==> FromRedisString(c, RedisStore.Get(s, keys[i])).Success?
    ensures (exists i :: 0 <= i < |keys| && keys[i] !in s) ==> r.Failure?
    ensures r.Failure? && r.error.Undecodable? ==>
              exists i :: && 0 <= i < |keys|
                          && FromRedisString(c, RedisStore.Get(s, keys[i])) == Failure(r.error.decode)
                          && forall j :: 0 <= j < i ==> FromRedisString(c, RedisStore.Get(s, keys[j])).Success?
  {
    match MGet(s, keys)
    case Failure(e) => Failure(Rejected(e))
    case Success(fetched) =>
      match DecodeAll(c, keys, fetched)
      case Failure(e) => Failure(Undecodable(e))
      case Success(m) => Success(m)
  }

  /** A successful `getAll` lists each requested key once, in first-occurrence order. */
  lemma GetAllOrder<T>(c: Codec<T>, s: Store, keys: seq<Key>)
    requires GetAll(c, s, keys).Success?
    ensures Valid(GetAll(c, s, keys).value)
    ensures GetAll(c, s, keys).value.order == Dedup(keys)
  {
    DecodeAllOrder(c, keys, MGet(s, keys).value);
  }

  /** Each key of a successful `getAll` maps to the value decoded from its blob. */
  lemma GetAllValues<T>(c: Codec<T>, s: Store, keys: seq<Key>)
    requires GetAll(c, s, keys).Success?
    ensures forall i :: 0 <= i < |keys| ==>
              && keys[i] in GetAll(c, s, keys).value.entries
              && GetAll(c, s, keys).value.entries[keys[i]]
                   == FromRedisString(c, RedisStore.Get(s, keys[i])).value.value
  {
    DecodeAllValues(c, s, keys, MGet(s, keys).value);
  }
}
