# objectify-cache-redis: the versioned envelope and the compare-and-set cache

This project models the Redis-backed cache of objectify-cache-redis and
proves properties of the model. The model has two parts.

**The envelope (`RedisIdentifiableValue`).**
- A cached value is stamped with a `UUID` version.
- It is stored as 16 version bytes followed by the serialized value. The
  version bytes are the two signed 64-bit halves, each written big-endian
  as `DataOutputStream.writeLong` writes them.
- Decoding reads the two halves back and then deserializes the rest.

**The facade (`RedisMemcacheService`).** Every operation is a pure transition
of an abstract Redis store, `map<Key, Entry>`. An entry is a byte blob plus an
optional time to live.
- `get` treats a missing key, an empty blob and an undecodable blob as a miss.
- `getIdentifiables` returns one handle per key. For a key with no decodable
  envelope, it first stores a null-valued sentinel, so that a later
  compare-and-set has a version to compare against.
- `getAll` is a strict batch decode. An empty key collection fails too,
  because Redis rejects an `MGET` with no keys.
- `put` and `putAll` overwrite with a new version.
- `deleteAll` removes keys.
- `putIfUntouched` runs a server-side Lua script per entry. The script
  compares the stored blob's first 16 bytes with the handle's version bytes.
  On a match it `SET`s the new envelope, with `EX` when the expiration is
  positive. Redis runs the script atomically, so the model treats it as one
  transition.

Modules, in dependency order:

| file | module | contents |
|---|---|---|
| results.dfy | `Results` | `Option`, `Result` |
| bytes.dfy | `Bytes` | Java `int`/`long` ranges, big-endian `writeLong`/`readLong` |
| linked_map.dfy | `LinkedMaps` | `LinkedHashMap` as an ordered key list plus a map |
| envelope.dfy | `Envelope` | `UUID`, the abstract payload codec, `toRedisString`/`fromRedisString` |
| redis_store.dfy | `RedisStore` | the store and the commands used: `GET`, `MGET`, `SET`, `DEL` |
| memcache_service.dfy | `MemcacheService` | reads, writes, deletes, `getIdentifiables`, `getAll` |
| cas.dfy | `CompareAndSet` | the put script, `executePutScript`, `putIfUntouched` |
| scenarios.dfy | `Scenarios` | the facade's test cases as lemmas over every store |

Modelling choices:
- Fresh versions are inputs. `UUID.randomUUID()` becomes a `newVersion`
  parameter, or a `versions` sequence parallel to a batch; it is used only
  where the source would draw a version.
- The payload codec is a pair of functions, `serialize` and `deserialize`.
  `deserialize` returns `None` where `readObject` would throw. Lemmas that
  need a round trip require `RoundTrips(c, v)` for the values involved.
- A Java `null` object is `Value.Null`.
- A `null` byte array, which is what `GET` returns for a missing key, is
  `Option.None`.
- An exception that escapes an operation is a `Failure` carrying the reason.
- Batches given as a Java `Map` are sequences in iteration order. Where the
  source's `Map` guarantees distinct keys, lemmas require `DistinctKeys`.

## Model

| member | source | states |
|---|---|---|
| Bytes.ReadWriteLong | src/main/java/com/googlecode/objectify/cache/redis/RedisIdentifiableValue.java:65-66 | `readLong` of the 8 bytes `writeLong` wrote for any signed 64-bit `x` gives back `x` |
| Bytes.WriteReadLong | src/main/java/com/googlecode/objectify/cache/redis/RedisIdentifiableValue.java:38-39 | every 8-byte block is what `writeLong` writes for the `long` that `readLong` reads from it, so the two are inverse bijections |
| Bytes.FromToBigEndian | src/main/java/com/googlecode/objectify/cache/redis/RedisIdentifiableValue.java:38-39 | reading big-endian bytes back recovers every number below 256^width |
| Bytes.ToFromBigEndian | src/main/java/com/googlecode/objectify/cache/redis/RedisIdentifiableValue.java:65-66 | writing back the number read from a byte sequence reproduces the sequence |
| Bytes.BigEndianDigits | src/main/java/com/googlecode/objectify/cache/redis/RedisIdentifiableValue.java:38-39 | byte `i` of a `width`-byte big-endian form of `n` is base-256 digit `width - 1 - i` of `n`, so the most significant byte comes first |
| Bytes.WriteLongBytes | src/main/java/com/googlecode/objectify/cache/redis/RedisIdentifiableValue.java:38-39 | byte `i` that `writeLong` emits is `(x >>> 8 * (7 - i)) & 0xff` of the two's-complement pattern of `x` |
| Envelope.VersionBytes | src/main/java/com/googlecode/objectify/cache/redis/RedisIdentifiableValue.java:49-57 | `getVersionRedisString` is always exactly 16 bytes |
| Envelope.ReadVersionBytes | src/main/java/com/googlecode/objectify/cache/redis/RedisIdentifiableValue.java:64-67 | reading the two longs back from the version bytes gives the original `UUID` |
| Envelope.VersionBytesInjective | src/main/java/com/googlecode/objectify/cache/redis/RedisIdentifiableValue.java:53-54 | two versions have the same 16 bytes if and only if they are equal, which is what lets a CAS see a stale handle |
| Envelope.VersionBytesOnto | src/main/java/com/googlecode/objectify/cache/redis/RedisIdentifiableValue.java:64-67 | every 16-byte prefix is the version bytes of the `UUID` read from it |
| Envelope.ToRedisString | src/main/java/com/googlecode/objectify/cache/redis/RedisIdentifiableValue.java:34-45 | the blob is at least 16 bytes long; its first 16 bytes are `getVersionRedisString` of the same version; the rest is the serialized value |
| Envelope.FromRedisString | src/main/java/com/googlecode/objectify/cache/redis/RedisIdentifiableValue.java:61-73 | fails on `null` input and on input shorter than 16 bytes; otherwise succeeds exactly when the bytes after the prefix deserialize; on success, the version is read from the first 16 bytes and the value is the deserialized rest |
| Envelope.EnvelopeRoundTrip | src/main/java/com/googlecode/objectify/cache/redis/RedisIdentifiableValue.java:34-73 | if the codec round-trips the value, decoding an encoded envelope gives an equal envelope: same version, same value |
| Envelope.VersionOnlyFromPrefix | src/main/java/com/googlecode/objectify/cache/redis/RedisIdentifiableValue.java:64-67 | two blobs with the same first 16 bytes decode to the same version, whatever payload follows |
| Envelope.Stamp | src/main/java/com/googlecode/objectify/cache/redis/RedisIdentifiableValue.java:28-30 | the one-argument constructor's storage form carries exactly the supplied version, followed by the unchanged value's serialization |
| RedisStore.MGet | src/main/java/com/googlecode/objectify/cache/redis/RedisMemcacheService.java:116-121 | rejected with an arity error exactly when no key is given, since `MGET` needs at least one; otherwise one reply per requested key in request order, duplicates included, and reply `i` is what `GET` of key `i` returns |
| RedisStore.Set | src/main/java/com/googlecode/objectify/cache/redis/RedisMemcacheService.java:72-78 | the key holds the blob with the given time to live, and every other key is unchanged |
| RedisStore.Del | src/main/java/com/googlecode/objectify/cache/redis/RedisMemcacheService.java:195-201 | the key is gone, whether or not it was there before, and every other key is unchanged |
| MemcacheService.FromCacheValue | src/main/java/com/googlecode/objectify/cache/redis/RedisMemcacheService.java:46-59 | `null` and empty input give no envelope; non-empty input gives one exactly when `fromRedisString` succeeds, and then it is the decoded one; decoding errors never escape |
| MemcacheService.GetValue | src/main/java/com/googlecode/objectify/cache/redis/RedisMemcacheService.java:62-69 | a missing key and a blob shorter than 16 bytes give nothing; a blob whose bytes after the first 16 deserialize always gives an envelope; a found envelope is read from the key's stored blob: version from its first 16 bytes, value deserialized from the rest |
| MemcacheService.Get | src/main/java/com/googlecode/objectify/cache/redis/RedisMemcacheService.java:80-84 | `null` for a missing key, a blob shorter than 16 bytes or an undeserializable payload; otherwise the deserialized value |
| MemcacheService.PutValue | src/main/java/com/googlecode/objectify/cache/redis/RedisMemcacheService.java:72-78 | the key holds the envelope's storage form with no time to live; every other key is unchanged |
| MemcacheService.GetValueOfEnvelope | src/main/java/com/googlecode/objectify/cache/redis/RedisMemcacheService.java:46-84 | a key holding the storage form of an envelope whose value the codec round-trips reads back, through `getValue` and `get`, as that envelope and its value |
| MemcacheService.Put | src/main/java/com/googlecode/objectify/cache/redis/RedisMemcacheService.java:141-144 | the key holds the value stamped with the new version, without a time to live; the stored version reads back as that version; every other key is unchanged |
| MemcacheService.GetAfterPut | src/main/java/com/googlecode/objectify/cache/redis/RedisMemcacheService.java:141-144 | `get` after `put(k, x)` returns `x`, `null` included, and `get` of every other key is unchanged |
| MemcacheService.PutAll | src/main/java/com/googlecode/objectify/cache/redis/RedisMemcacheService.java:185-188 | the keys afterwards are the old keys plus the batch's keys; every key outside the batch is unchanged |
| MemcacheService.PutAllStoresEach | src/main/java/com/googlecode/objectify/cache/redis/RedisMemcacheService.java:185-188 | with distinct keys, each entry is stored with its own new version and no time to live |
| MemcacheService.GetAfterPutAll | src/main/java/com/googlecode/objectify/cache/redis/RedisMemcacheService.java:185-188 | with distinct keys, `get` returns each value of the batch that the codec round-trips |
| MemcacheService.Delete | src/main/java/com/googlecode/objectify/cache/redis/RedisMemcacheService.java:195-201 | the key is absent afterwards and every other key is unchanged |
| MemcacheService.DeleteAll | src/main/java/com/googlecode/objectify/cache/redis/RedisMemcacheService.java:190-193 | every listed key is absent afterwards, absent ones before included; every other key is unchanged |
| MemcacheService.GetIdentifiable | src/main/java/com/googlecode/objectify/cache/redis/RedisMemcacheService.java:100-112 | a decodable envelope is returned with no write; otherwise a null sentinel with the new version is returned and stored without a time to live; the key is present afterwards; other keys are unchanged |
| MemcacheService.GetIdentifiables | src/main/java/com/googlecode/objectify/cache/redis/RedisMemcacheService.java:86-98 | every requested key is stored and has a handle; keys not requested are unchanged |
| MemcacheService.GetIdentifiablesOrder | src/main/java/com/googlecode/objectify/cache/redis/RedisMemcacheService.java:90-97 | the handles are listed once per distinct key, in first-occurrence order |
| MemcacheService.GetIdentifiablesHandles | src/main/java/com/googlecode/objectify/cache/redis/RedisMemcacheService.java:86-112 | for every requested key, duplicates included: the stored blob decodes to the returned handle; a key that held a decodable envelope returns it and was not written; any other key returns a null sentinel stamped with the version supplied at its first occurrence |
| MemcacheService.DecodeAll | src/main/java/com/googlecode/objectify/cache/redis/RedisMemcacheService.java:123-138 | the loop succeeds exactly when every reply decodes; otherwise it fails with the first failing reply's error |
| MemcacheService.DecodeAllOrder | src/main/java/com/googlecode/objectify/cache/redis/RedisMemcacheService.java:123-138 | a successful loop lists each key once, in first-occurrence order |
| MemcacheService.GetAll | src/main/java/com/googlecode/objectify/cache/redis/RedisMemcacheService.java:114-139 | an empty key collection fails with `MGET`'s arity error, and only it does; otherwise succeeds exactly when every requested key's blob decodes; any missing key fails the batch; a decoding failure carries the error of the first key that does not decode |
| MemcacheService.GetAllOrder | src/main/java/com/googlecode/objectify/cache/redis/RedisMemcacheService.java:123-138 | a successful result lists each requested key once, in first-occurrence order |
| MemcacheService.DecodeAllValues | src/main/java/com/googlecode/objectify/cache/redis/RedisMemcacheService.java:125-136 | when the replies are the `GET`s of the keys, a successful loop maps every key to the value decoded from its own blob |
| MemcacheService.GetAllValues | src/main/java/com/googlecode/objectify/cache/redis/RedisMemcacheService.java:125-136 | in a successful result, every requested key maps to the value decoded from its blob |
| CompareAndSet.LuaPrefixMatch | src/main/java/com/googlecode/objectify/cache/redis/RedisMemcacheService.java:168-170 | the guard `value:sub(1, 16) == KEYS[2]` against a 16-byte expected version holds exactly when the blob is at least 16 bytes long and starts with those bytes |
| CompareAndSet.RunPutScript | src/main/java/com/googlecode/objectify/cache/redis/RedisMemcacheService.java:168-170 | a missing key raises the script error and changes nothing; a matching prefix sets the blob and replies `OK`; a mismatch replies nil and changes nothing; other keys are never touched |
| CompareAndSet.ExecutePutScript | src/main/java/com/googlecode/objectify/cache/redis/RedisMemcacheService.java:172-183 | errors exactly on a missing key; replies `OK` exactly when the first 16 bytes match; then it stores the value, with a time to live of `expiration` seconds if and only if `expiration > 0`; otherwise the store is unchanged |
| CompareAndSet.PutIfUntouchedOne | src/main/java/com/googlecode/objectify/cache/redis/RedisMemcacheService.java:150-162 | errors exactly when the key is missing; succeeds exactly when the stored prefix equals the handle's version bytes, and then stores the new envelope with the requested time to live; otherwise the store is unchanged; other keys are never touched |
| CompareAndSet.PutIfUntouched | src/main/java/com/googlecode/objectify/cache/redis/RedisMemcacheService.java:147-166 | returns normally exactly when every key of the batch is present; the success set is a subset of the batch's keys; an escaping error names a batch key that is missing; no key is created, and keys outside the batch are unchanged |
| CompareAndSet.PutIfUntouchedError | src/main/java/com/googlecode/objectify/cache/redis/RedisMemcacheService.java:157-162 | the call ends in the script error of the first missing key, and returns normally when there is none |
| CompareAndSet.PutIfUntouchedBatch | src/main/java/com/googlecode/objectify/cache/redis/RedisMemcacheService.java:147-166 | with distinct keys: each key is a success exactly when its handle is untouched; an entry before the first missing key stores its new envelope exactly when its handle was untouched; every other entry's key keeps its old entry |
| CompareAndSet.PutIfUntouchedOneGuarded | src/main/java/com/googlecode/objectify/cache/redis/RedisMemcacheService.java:168-170 | with a missing key counted as a mismatch: succeeds exactly when the handle is untouched, and then stores the new envelope; otherwise the store is unchanged |
| CompareAndSet.PutIfUntouchedGuarded | src/main/java/com/googlecode/objectify/cache/redis/RedisMemcacheService.java:147-166 | corrected batch: the success set is a subset of the batch's keys, no key is created, and keys outside the batch are unchanged |
| CompareAndSet.PutIfUntouchedGuardedBatch | src/main/java/com/googlecode/objectify/cache/redis/RedisMemcacheService.java:147-166 | corrected batch with distinct keys: each entry succeeds exactly when its own handle is untouched, whatever the other entries do; a success stores its new envelope, and a failure leaves its key as it was |
| CompareAndSet.GuardedAgreesWhenPresent | src/main/java/com/googlecode/objectify/cache/redis/RedisMemcacheService.java:147-170 | when every key of the batch is present, the corrected batch and the batch as written return the same successes and leave the same store |
| CompareAndSet.MissingKeyAbortsBatch | src/main/java/com/googlecode/objectify/cache/redis/RedisMemcacheService.java:157-162 | in a batch whose first handle is current and whose second key is missing, the call as written writes the first key and still ends in the second key's script error; the corrected batch returns the first key |
| Scenarios.SingleCas | src/test/java/com/googlecode/objectify/cache/redis/RedisMemcacheServiceTest.java:118-121 | a one-entry `putIfUntouched` on a present key returns that key exactly when its handle is untouched |
| Scenarios.SingleHandle | src/test/java/com/googlecode/objectify/cache/redis/RedisMemcacheServiceTest.java:111-116 | `getIdentifiables` of one key returns a handle: the stored envelope if the key had one, otherwise a stored null sentinel |
| Scenarios.DeleteWorks | src/test/java/com/googlecode/objectify/cache/redis/RedisMemcacheServiceTest.java:59-65 | after `put` and `deleteAll` of the key, `get` returns `null` |
| Scenarios.GetIdentifiableThenCas | src/test/java/com/googlecode/objectify/cache/redis/RedisMemcacheServiceTest.java:67-94 | on a missing key: the handle's value is `null`; the CAS against it succeeds; `get` returns the new value; the entry's time to live is the expiration when it is positive, and none otherwise |
| Scenarios.InterruptedCasFails | src/test/java/com/googlecode/objectify/cache/redis/RedisMemcacheServiceTest.java:96-108 | a `put` between reading the sentinel handle and the CAS, with a version different from the sentinel's, makes the CAS fail, and `get` returns what the `put` stored |
| Scenarios.AtMostOneCasWins | src/main/java/com/googlecode/objectify/cache/redis/RedisMemcacheService.java:168-170 | of two `putIfUntouched` calls as written with the same handle on one key, at most one succeeds; the first succeeds when the handle is untouched; when it does, the second leaves its entry in place; requires the first's new version to differ from the handle's |

## Left out

- Connections: `JedisPool`/`Jedis` acquisition and release and the host/port constructors are I/O plumbing. The store is a map passed in and returned.
- Serialization: the Java object serialization format is not modelled; the payload codec is an abstract pair of functions. `writeObject` failing on a non-serializable value is not modelled either: `serialize` is total.
- Random versions: `UUID.randomUUID()` is replaced by supplied versions. Where a lemma needs a fresh version to differ from another, it says so as a precondition.
- Expiry: a time to live is recorded on the entry, but time does not pass. The 2-second sleep in `getAndPutIdentifiableWithExpiration` and the key vanishing afterwards are not modelled.
- Concurrency: clients interleave only between whole operations. The Lua interpreter is not modelled; the script is one transition doing the `GET`, the 16-byte comparison and the `SET`.
- Keys: the UTF-8 encoding of keys (`key.getBytes`) is taken to be injective, so keys are strings.
- Logging: the `log.error` call in `fromCacheValue` is left out, as are the test fixtures (`flushDB`, pool setup) and the disabled `experiment` test.
- Handle types: the cast of the handle to `RedisIdentifiableValue` in `putIfUntouched` always succeeds in the model, because every handle is an envelope. The `ClassCastException` a foreign handle would cause is not modelled.
- Iteration order: `putIfUntouched` and `putAll` iterate the caller's `Map`, in whatever order that `Map` gives. The model takes the batch in whatever order it is given.
- MemcacheService.GetIdentifiablesHandles: requires the codec to round-trip `null`, which Java serialization does, because the sentinel must read back as a null handle.
- Envelope.VersionOnlyFromPrefix: is stated for blobs whose payloads both decode, since `fromRedisString` returns no version at all when the payload fails.
- CompareAndSet.PutIfUntouchedBatch: states the stored entries for distinct keys only, as the source's `Map` guarantees.

## Findings

`putIfUntouched` returns a per-key success set (RedisMemcacheService.java:147-166), so a key whose comparison fails should be left out of the set without affecting the other keys. The code does not do this when a key is missing at the time its script runs; the model follows the code.
`CompareAndSet.PutIfUntouched` is the batch as written. `CompareAndSet.PutIfUntouchedGuarded` is the corrected batch. `CompareAndSet.GuardedAgreesWhenPresent` proves that the two agree whenever every key is present. The scenario lemmas, `Scenarios.AtMostOneCasWins` included, are stated for the batch as written.

| source | as written | input that shows it | evidently intended | confidence | as-written member | corrected member |
|---|---|---|---|---|---|---|
| src/main/java/com/googlecode/objectify/cache/redis/RedisMemcacheService.java:157-162 | For a missing key the script's `GET` yields `false`, and `value:sub(1, 16)` raises a Lua error. The client rethrows it out of `putIfUntouched`. The batch ends there: earlier `SET`s stay in the store, but the success set is never returned. | `k1` holds the envelope of handle `v1`; `k2` is missing; the batch is `[k1 with handle v1, k2 with any handle]` | a missing key fails its comparison like any stale handle, and the call returns `{k1}` | medium, not executed | CompareAndSet.MissingKeyAbortsBatch | CompareAndSet.PutIfUntouchedGuardedBatch |
