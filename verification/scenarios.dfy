/** The behaviours the facade's tests exercise, as facts about the model for
    every store, key, codec and choice of fresh versions. */
module Scenarios {
  import opened Results
  import opened Bytes
  import opened Envelope
  import opened RedisStore
  import opened MemcacheService
  import opened CompareAndSet

  /** A one-entry `putIfUntouched` on a present key: the success set is the
      key exactly when the handle is untouched. */
  lemma SingleCas<T>(c: Codec<T>, s: Store, k: Key, cput: CasPut<T>, newVersion: Uuid)
    requires k in s
    ensures PutIfUntouched(c, s, [(k, cput)], [newVersion]).result
              == Success(if Untouched(s, k, cput.iv) then {k} else {})
    ensures PutIfUntouched(c, s, [(k, cput)], [newVersion]).store
              == PutIfUntouchedOne(c, s, k, cput, newVersion).store
  {
    var puts, versions := [(k, cput)], [newVersion];
    assert puts[..0] == [] && versions[..0] == [];
    assert PutIfUntouched(c, s, puts[..0], versions[..0]) == CasOutcome(s, Success({}));
    var step := PutIfUntouchedOne(c, s, k, cput, newVersion);
    assert step.outcome == Success(Untouched(s, k, cput.iv));
    var none: set<Key> := {};
    assert none + {k} == {k};
    assert PutIfUntouched(c, s, puts, versions)
             == CasOutcome(step.store, Success(if step.outcome.value then none + {k} else none));
  }

  /** `getIdentifiables` of one key: the helper the tests read handles with. */
  lemma SingleHandle<T>(c: Codec<T>, s: Store, k: Key, v: Uuid)
    requires RoundTrips(c, Null)
    ensures var f := GetIdentifiables(c, s, [k], [v]);
            && k in f.handles.entries && k in f.store
            && (GetValue(c, s, k).None? ==>
                  f.handles.entries[k] == IdentifiableValue(v, Null)
                  && Lookup(f.store, k) == Some(Entry(ToRedisString(c, IdentifiableValue(v, Null)), NoExpiry)))
            && (GetValue(c, s, k).Some? ==> f.handles.entries[k] == GetValue(c, s, k).value && f.store == s)
  {
    var keys := [k];
    assert keys[..0] == [];
  }

  /** `deleteWorks`: a deleted key reads as a miss. */
  lemma DeleteWorks<T>(c: Codec<T>, s: Store, k: Key, x: Value<T>, v: Uuid)
    ensures MemcacheService.Get(c, DeleteAll(Put(c, s, k, x, v), [k]), k) == Null
  {
  }

  /** `simpleGetAndPutIdentifiable` and, with a positive expiration,
      `getAndPutIdentifiableWithExpiration`: a handle read from a missing key
      is a null sentinel, the compare-and-set against it succeeds, and `get`
      then returns the new value, stored with the requested time to live. */
  lemma GetIdentifiableThenCas<T>(c: Codec<T>, s: Store, k: Key, v0: Uuid, v1: Uuid, next: Value<T>, expiration: int32)
    requires RoundTrips(c, Null) && RoundTrips(c, next)
    requires k !in s
    ensures var f := GetIdentifiables(c, s, [k], [v0]);
            var iv := f.handles.entries[k];
            var cas := PutIfUntouched(c, f.store, [(k, CasPut(iv, next, expiration))], [v1]);
            && iv.value == Null
            && cas.result == Success({k})
            && MemcacheService.Get(c, cas.store, k) == next
            && cas.store[k].expiry == (if expiration > 0 then ExpiresIn(expiration) else NoExpiry)
  {
    SingleHandle(c, s, k, v0);
    var f := GetIdentifiables(c, s, [k], [v0]);
    var iv := f.handles.entries[k];
    var cput := CasPut(iv, next, expiration);
    assert Untouched(f.store, k, iv);
    SingleCas(c, f.store, k, cput, v1);
    var cas := PutIfUntouched(c, f.store, [(k, cput)], [v1]);
    GetValueOfEnvelope(c, cas.store, k, Stamp(c, next, v1), ExpiryFor(expiration));
  }

  /** `getAndPutIdentifiableInterrupted`: a `put` between reading the handle
      and the compare-and-set (with a fresh version, which differs from the
      sentinel's) makes the compare-and-set fail and keeps what the `put` stored. */
  lemma InterruptedCasFails<T>(c: Codec<T>, s: Store, k: Key, v0: Uuid, v1: Uuid, v2: Uuid,
                               other: Value<T>, next: Value<T>)
    requires RoundTrips(c, Null) && RoundTrips(c, other)
    requires k !in s
    requires v2 != v0
    ensures var f := GetIdentifiables(c, s, [k], [v0]);
            var iv := f.handles.entries[k];
            var s2 := Put(c, f.store, k, other, v2);
            var cas := PutIfUntouched(c, s2, [(k, CasPut(iv, next, 0))], [v1]);
            && iv.value == Null
            && cas.result == Success({})
            && MemcacheService.Get(c, cas.store, k) == other
  {
    SingleHandle(c, s, k, v0);
    var f := GetIdentifiables(c, s, [k], [v0]);
    var iv := f.handles.entries[k];
    var s2 := Put(c, f.store, k, other, v2);
    var cput := CasPut(iv, next, 0);
    VersionBytesInjective(v2, v0);
    assert !Untouched(s2, k, iv);
    SingleCas(c, s2, k, cput, v1);
    GetAfterPut(c, f.store, k, other, v2);
  }

  /** Two compare-and-sets racing with the same handle on the same key, in
      whichever order the server runs them: at most one succeeds, the first
      succeeds when the handle is still current, and when the first succeeds
      the key keeps its value. The version drawn for the first must differ
      from the handle's, as a fresh random version does. */
  lemma AtMostOneCasWins<T>(c: Codec<T>, s: Store, k: Key, iv: IdentifiableValue<T>,
                            next1: Value<T>, next2: Value<T>, e1: int32, e2: int32, v1: Uuid, v2: Uuid)
    requires v1 != iv.version
    ensures var first := PutIfUntouched(c, s, [(k, CasPut(iv, next1, e1))], [v1]);
            var second := PutIfUntouched(c, first.store, [(k, CasPut(iv, next2, e2))], [v2]);
            && !(first.result.Success? && k in first.result.value
                 && second.result.Success? && k in second.result.value)
            && (Untouched(s, k, iv) ==> first.result == Success({k}))
            && (first.result.Success? && k in first.result.value ==>
                  Lookup(second.store, k) == Some(CasEntry(c, CasPut(iv, next1, e1), v1)))
  {
    var p1, p2 := CasPut(iv, next1, e1), CasPut(iv, next2, e2);
    var b1, b2 := [(k, p1)], [(k, p2)];
    assert b1[..0] == [] && b2[..0] == [];
    var first := PutIfUntouched(c, s, b1, [v1]);
    if k in s {
      SingleCas(c, s, k, p1, v1);
    }
    if first.result.Success? && k in first.result.value {
      assert Lookup(first.store, k) == Some(CasEntry(c, p1, v1));
      VersionBytesInjective(v1, iv.version);
      assert !Untouched(first.store, k, iv);
    }
  }
}
