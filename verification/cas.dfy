/** `putIfUntouched`: the compare-and-set write. Each entry runs a Lua script
    on the server that compares the stored blob's first 16 bytes with the
    handle's version bytes and, when they match, overwrites the blob with a
    newly stamped envelope. The script runs atomically, so a script is one
    transition of the store. */
module CompareAndSet {
  import opened Results
  import opened Bytes
  import opened Envelope
  import opened RedisStore
  import opened MemcacheService

  /** The Lua error raised when the script calls `sub` on the `false` that
      `redis.call('get', ...)` returns for a missing key. The client rethrows
      it, so it escapes `putIfUntouched`. */
  datatype ScriptError = ScriptError(key: Key)

  /** The script's reply: the status `OK` of its `SET`, or nil when the
      comparison fails and the script falls off its end. */
  datatype ScriptReply = Ok | NilReply

  datatype Scripted = Scripted(store: Store, reply: Result<ScriptReply, ScriptError>)

  /** Lua `value:sub(1, 16)`: the first 16 bytes, or all of a shorter string. */
  function LuaPrefix(value: seq<byte>): (r: seq<byte>)
    ensures r <= value
    ensures |r| == if |value| < VERSION_BYTES then |value| else VERSION_BYTES
    ensures |value| >= VERSION_BYTES ==> r == value[..VERSION_BYTES]
  {
    if |value| < VERSION_BYTES then value else value[..VERSION_BYTES]
  }

  /** The script's guard on a present blob holds exactly when the blob starts
      with the expected 16 bytes. */
  lemma LuaPrefixMatch(value: seq<byte>, expected: seq<byte>)
    requires |expected| == VERSION_BYTES
    ensures LuaPrefix(value) == expected <==> |value| >= VERSION_BYTES && value[..VERSION_BYTES] == expected
  {
  }

  /** The time to live the script's `SET` records: `EX n` for a positive
      `n`, none otherwise. */
  function ExpiryFor(expiration: int32): (e: Expiry)
    ensures e.ExpiresIn? <==> expiration > 0
    ensures e.ExpiresIn? ==> e.seconds == expiration
  {
    if expiration > 0 then ExpiresIn(expiration) else NoExpiry
  }

  /** One evaluation of the put script: `GET`, compare the prefix, `SET` on a
      match. */
  function RunPutScript(s: Store, key: Key, lastVersion: seq<byte>, value: seq<byte>, expiry: Expiry): (r: Scripted)
    ensures key !in s ==> r == Scripted(s, Failure(ScriptError(key)))
    ensures key in s ==> r.reply.Success?
    ensures r.reply == Success(Ok) <==> key in s && LuaPrefix(s[key].blob) == lastVersion
    ensures r.reply == Success(Ok) ==> Lookup(r.store, key) == Some(Entry(value, expiry))
    ensures r.reply != Success(Ok) ==> r.store == s
    ensures forall k :: k != key ==> Lookup(r.store, k) == Lookup(s, k)
  {
    if key !in s then Scripted(s, Failure(ScriptError(key)))
    else if LuaPrefix(s[key].blob) == lastVersion then Scripted(Set(s, key, value, expiry), Success(Ok))
    else Scripted(s, Success(NilReply))
  }

  /** `executePutScript`: the script with `EX` when `expiration` is positive,
      the script without it otherwise. */
  function ExecutePutScript(s: Store, key: Key, lastVersion: seq<byte>, value: seq<byte>, expiration: int32): (r: Scripted)
    ensures r.reply.Failure? <==> key !in s
    ensures r.reply.Failure? ==> r == Scripted(s, Failure(ScriptError(key)))
    ensures |lastVersion| == VERSION_BYTES ==>
              (r.reply == Success(Ok) <==>
                 key in s && |s[key].blob| >= VERSION_BYTES && s[key].blob[..VERSION_BYTES] == lastVersion)
    ensures r.reply == Success(Ok) ==>
              && Lookup(r.store, key).Some? && r.store[key].blob == value
              && (r.store[key].expiry.ExpiresIn? <==> expiration > 0)
              && (r.store[key].expiry.ExpiresIn? ==> r.store[key].expiry.seconds == expiration)
    ensures r.reply != Success(Ok) ==> r.store == s
    ensures forall k :: k != key ==> Lookup(r.store, k) == Lookup(s, k)
  {
    RunPutScript(s, key, lastVersion, value, ExpiryFor(expiration))
  }

  /** `CasPut`: the handle read earlier, the value to store and its time to
      live in seconds. */
  datatype CasPut<T> = CasPut(iv: IdentifiableValue<T>, nextToStore: Value<T>, expirationSeconds: int32)

  /** The stored blob still carries the handle's version: nobody has written
      the key since the handle was read. */
  predicate Untouched<T>(s: Store, key: Key, iv: IdentifiableValue<T>) {
    && key in s
    && |s[key].blob| >= VERSION_BYTES
    && s[key].blob[..VERSION_BYTES] == VersionBytes(iv.version)
  }

  /** What a successful compare-and-set stores: the new value under the
      version `newVersion`, with the requested time to live. */
  function CasEntry<T>(c: Codec<T>, cput: CasPut<T>, newVersion: Uuid): Entry {
    Entry(ToRedisString(c, Stamp(c, cput.nextToStore, newVersion)), ExpiryFor(cput.expirationSeconds))
  }

  /** The store after one entry, and whether the entry succeeded (or the
      script error that escaped). */
  datatype CasStep = CasStep(store: Store, outcome: Result<bool, ScriptError>)

  /** The body of the `forEach` in `putIfUntouched` for one entry:
      `newVersion` stamps the new value. */
  function PutIfUntouchedOne<T>(c: Codec<T>, s: Store, key: Key, cput: CasPut<T>, newVersion: Uuid): (r: CasStep)
    ensures r.outcome.Failure? <==> key !in s
    ensures r.outcome.Failure? ==> r.outcome.error == ScriptError(key) && r.store == s
    ensures r.outcome == Success(true) <==> Untouched(s, key, cput.iv)
    ensures Untouched(s, key, cput.iv) ==> Lookup(r.store, key) == Some(CasEntry(c, cput, newVersion))
    ensures !Untouched(s, key, cput.iv) ==> r.store == s
    ensures forall k :: k != key ==> Lookup(r.store, k) == Lookup(s, k)
    ensures r.store.Keys == s.Keys
  {
    var lastVersion := VersionBytes(cput.iv.version);
    var next := Stamp(c, cput.nextToStore, newVersion);
    var sc := ExecutePutScript(s, key, lastVersion, ToRedisString(c, next), cput.expirationSeconds);
    match sc.reply
    case Failure(e) => CasStep(sc.store, Failure(e))
    case Success(reply) => CasStep(sc.store, Success(reply == Ok))
  }

  datatype CasOutcome = CasOutcome(store: Store, result: Result<set<Key>, ScriptError>)

  /** `putIfUntouched` as written: the entries in iteration order, each
      adding its key to the successes when its script replies `OK`. A script
      error ends the loop by exception: the writes made so far stay, the
      successes are lost. */
  function PutIfUntouched<T>(c: Codec<T>, s: Store, puts: seq<(Key, CasPut<T>)>, versions: seq<Uuid>): (r: CasOutcome)
    requires |versions| == |puts|
    ensures r.result.Success? <==> KeySet(puts) <= s.Keys
    ensures r.result.Success? ==> r.result.value <= KeySet(puts)
    ensures r.result.Failure? ==> r.result.error.key in KeySet(puts) && r.result.error.key !in s
    ensures r.store.Keys == s.Keys
    ensures forall k :: k !in KeySet(puts) ==> Lookup(r.store, k) == Lookup(s, k)
  {
    if |puts| == 0 then CasOutcome(s, Success({}))
    else
      var n := |puts| - 1;
      var prev := PutIfUntouched(c, s, puts[..n], versions[..n]);
      match prev.result
      case Failure(_) => prev
      case Success(ok) =>
        var step := PutIfUntouchedOne(c, prev.store, puts[n].0, puts[n].1, versions[n]);
        match step.outcome
        case Failure(e) => CasOutcome(step.store, Failure(e))
        case Success(b) => CasOutcome(step.store, Success(if b then ok + {puts[n].0} else ok))
  }

  /** Position of the first entry whose key is missing from `s`, or the
      number of entries when every key is present. */
  function FirstMissing<X>(s: Store, puts: seq<(Key, X)>): (j: nat)
    ensures j <= |puts|
    ensures forall i :: 0 <= i < j ==> puts[i].0 in s
    ensures j < |puts| ==> puts[j].0 !in s
  {
    if |puts| == 0 then 0
    else
      var n := |puts| - 1;
      var jp := FirstMissing(s, puts[..n]);
      if jp < n then jp
      else if puts[n].0 in s then |puts|
      else n
  }

  /** Whether the batch ends in a script error, and which one, depends only
      on which keys are missing: the first missing key's error escapes, and
      with every key present the call returns normally. */
  lemma {:induction false} PutIfUntouchedError<T>(c: Codec<T>, s: Store, puts: seq<(Key, CasPut<T>)>, versions: seq<Uuid>)
    requires |versions| == |puts|
    ensures PutIfUntouched(c, s, puts, versions).result.Success? <==> FirstMissing(s, puts) == |puts|
    ensures FirstMissing(s, puts) < |puts| ==>
              PutIfUntouched(c, s, puts, versions).result == Failure(ScriptError(puts[FirstMissing(s, puts)].0))
  {
    if |puts| > 0 {
      var n := |puts| - 1;
      var pp := puts[..n];
      PutIfUntouchedError(c, s, pp, versions[..n]);
      var prev := PutIfUntouched(c, s, pp, versions[..n]);
      var jp := FirstMissing(s, pp);
      if jp < n {
        assert pp[jp] == puts[jp];
      } else {
        assert prev.result.Success?;
        assert Lookup(prev.store, puts[n].0).Some? <==> puts[n].0 in s;
      }
    }
  }

  /** What a batch of distinct keys does with entry `i`: had the call
      returned, `i`'s key would be a success exactly when its handle was
      untouched; the key holds the new entry when the loop reached `i` and
      the handle was untouched, and its old entry otherwise. */
  ghost predicate EntryAt<T>(c: Codec<T>, s: Store, puts: seq<(Key, CasPut<T>)>, versions: seq<Uuid>,
                             r: CasOutcome, i: nat)
    requires |versions| == |puts| && i < |puts|
  {
    && (r.result.Success? ==> (puts[i].0 in r.result.value <==> Untouched(s, puts[i].0, puts[i].1.iv)))
    && Lookup(r.store, puts[i].0)
         == if i < FirstMissing(s, puts) && Untouched(s, puts[i].0, puts[i].1.iv)
            then Some(CasEntry(c, puts[i].1, versions[i]))
            else Lookup(s, puts[i].0)
  }

  /** For a batch of distinct keys, every entry before the first missing key
      succeeds exactly when its handle is untouched, and its key then holds
      the new entry; the entries from the missing key on are not written. */
  lemma {:induction false} PutIfUntouchedBatch<T>(c: Codec<T>, s: Store, puts: seq<(Key, CasPut<T>)>, versions: seq<Uuid>)
    requires |versions| == |puts|
    requires DistinctKeys(puts)
    ensures forall i :: 0 <= i < |puts| ==> EntryAt(c, s, puts, versions, PutIfUntouched(c, s, puts, versions), i)
  {
    if |puts| > 0 {
      var n := |puts| - 1;
      var pp, pv := puts[..n], versions[..n];
      PrefixDistinct(puts);
      PutIfUntouchedBatch(c, s, pp, pv);
      PutIfUntouchedError(c, s, pp, pv);
      var prev := PutIfUntouched(c, s, pp, pv);
      forall i | 0 <= i < |puts|
        ensures EntryAt(c, s, puts, versions, PutIfUntouched(c, s, puts, versions), i)
      {
        EntryStep(c, s, puts, versions, prev, i);
      }
    }
  }

  /** The inductive step of `PutIfUntouchedBatch` for entry `i`. */
  lemma EntryStep<T>(c: Codec<T>, s: Store, puts: seq<(Key, CasPut<T>)>, versions: seq<Uuid>, prev: CasOutcome, i: nat)
    requires |versions| == |puts| > 0 && i < |puts|
    requires prev == PutIfUntouched(c, s, puts[..|puts| - 1], versions[..|puts| - 1])
    requires prev.result.Success? <==> FirstMissing(s, puts[..|puts| - 1]) == |puts| - 1
    requires i < |puts| - 1 ==> EntryAt(c, s, puts[..|puts| - 1], versions[..|puts| - 1], prev, i)
    requires i < |puts| - 1 ==> puts[i].0 != puts[|puts| - 1].0
    requires puts[|puts| - 1].0 !in KeySet(puts[..|puts| - 1])
    ensures EntryAt(c, s, puts, versions, PutIfUntouched(c, s, puts, versions), i)
  {
    var n := |puts| - 1;
    var kn := puts[n].0;
    assert Lookup(prev.store, kn) == Lookup(s, kn);
    if i < n {
      assert puts[..n][i] == puts[i] && versions[..n][i] == versions[i];
    }
    if prev.result.Failure? {
      assert PutIfUntouched(c, s, puts, versions) == prev;
    } else {
      EntryStepRan(c, s, puts, versions, prev, i);
    }
  }

  /** `EntryStep` when every earlier entry ran: the last entry's script sees
      its key as it was before the call. */
  lemma EntryStepRan<T>(c: Codec<T>, s: Store, puts: seq<(Key, CasPut<T>)>, versions: seq<Uuid>, prev: CasOutcome, i: nat)
    requires |versions| == |puts| > 0 && i < |puts|
    requires prev == PutIfUntouched(c, s, puts[..|puts| - 1], versions[..|puts| - 1])
    requires prev.result.Success? && FirstMissing(s, puts[..|puts| - 1]) == |puts| - 1
    requires i < |puts| - 1 ==> EntryAt(c, s, puts[..|puts| - 1], versions[..|puts| - 1], prev, i)
    requires i < |puts| - 1 ==> puts[i].0 != puts[|puts| - 1].0
    requires i < |puts| - 1 ==> puts[..|puts| - 1][i] == puts[i] && versions[..|puts| - 1][i] == versions[i]
    requires Lookup(prev.store, puts[|puts| - 1].0) == Lookup(s, puts[|puts| - 1].0)
    requires puts[|puts| - 1].0 !in prev.result.value
    ensures EntryAt(c, s, puts, versions, PutIfUntouched(c, s, puts, versions), i)
  {
    var n := |puts| - 1;
    var kn := puts[n].0;
    var step := PutIfUntouchedOne(c, prev.store, kn, puts[n].1, versions[n]);
    assert Untouched(prev.store, kn, puts[n].1.iv) == Untouched(s, kn, puts[n].1.iv);
    var r := PutIfUntouched(c, s, puts, versions);
    assert r.store == step.store;
    if step.outcome.Success? {
      assert r.result.value == if step.outcome.value then prev.result.value + {kn} else prev.result.value;
    }
  }

  /** A prefix of a batch with distinct keys has distinct keys. */
  lemma PrefixDistinct<X>(puts: seq<(Key, X)>)
    requires |puts| > 0 && DistinctKeys(puts)
    ensures DistinctKeys(puts[..|puts| - 1])
    ensures puts[|puts| - 1].0 !in KeySet(puts[..|puts| - 1])
  {
    var pp := puts[..|puts| - 1];
    forall i, j | 0 <= i < j < |pp| ensures pp[i].0 != pp[j].0 {
      assert pp[i] == puts[i] && pp[j] == puts[j];
    }
    forall i | 0 <= i < |pp| ensures pp[i].0 != puts[|puts| - 1].0 {
      assert pp[i] == puts[i];
    }
    NotInKeySet(pp, puts[|puts| - 1].0);
  }

  /* ------------------------------------------- missing key as a mismatch */

  /** The put script guarded against a missing key (`if value and ...`): a
      missing key fails the comparison like any other stale handle. */
  function PutIfUntouchedOneGuarded<T>(c: Codec<T>, s: Store, key: Key, cput: CasPut<T>, newVersion: Uuid): (r: (Store, bool))
    ensures r.1 <==> Untouched(s, key, cput.iv)
    ensures Untouched(s, key, cput.iv) ==> Lookup(r.0, key) == Some(CasEntry(c, cput, newVersion))
    ensures !Untouched(s, key, cput.iv) ==> r.0 == s
    ensures forall k :: k != key ==> Lookup(r.0, k) == Lookup(s, k)
    ensures r.0.Keys == s.Keys
  {
    if key !in s then (s, false)
    else
      var step := PutIfUntouchedOne(c, s, key, cput, newVersion);
      (step.store, step.outcome == Success(true))
  }

  /** `putIfUntouched` with every entry processed independently: the
      successes are the keys whose script stored the new value. */
  function PutIfUntouchedGuarded<T>(c: Codec<T>, s: Store, puts: seq<(Key, CasPut<T>)>, versions: seq<Uuid>): (r: (Store, set<Key>))
    requires |versions| == |puts|
    ensures r.1 <= KeySet(puts)
    ensures r.0.Keys == s.Keys
    ensures forall k :: k !in KeySet(puts) ==> Lookup(r.0, k) == Lookup(s, k)
  {
    if |puts| == 0 then (s, {})
    else
      var n := |puts| - 1;
      var (store, ok) := PutIfUntouchedGuarded(c, s, puts[..n], versions[..n]);
      var (store', b) := PutIfUntouchedOneGuarded(c, store, puts[n].0, puts[n].1, versions[n]);
      (store', if b then ok + {puts[n].0} else ok)
  }

  /** What a batch of distinct keys does with entry `i` when a missing key
      counts as a mismatch: `i`'s key is a success exactly when its handle
      was untouched, and then holds the new entry; otherwise it is as it was. */
  ghost predicate GuardedAt<T>(c: Codec<T>, s: Store, puts: seq<(Key, CasPut<T>)>, versions: seq<Uuid>,
                               r: (Store, set<Key>), i: nat)
    requires |versions| == |puts| && i < |puts|
  {
    && (puts[i].0 in r.1 <==> Untouched(s, puts[i].0, puts[i].1.iv))
    && Lookup(r.0, puts[i].0)
         == if Untouched(s, puts[i].0, puts[i].1.iv) then Some(CasEntry(c, puts[i].1, versions[i]))
            else Lookup(s, puts[i].0)
  }

  /** For a batch of distinct keys, each entry succeeds exactly when its
      handle is untouched, whatever the other entries do. */
  lemma {:induction false} PutIfUntouchedGuardedBatch<T>(c: Codec<T>, s: Store, puts: seq<(Key, CasPut<T>)>, versions: seq<Uuid>)
    requires |versions| == |puts|
    requires DistinctKeys(puts)
    ensures forall i :: 0 <= i < |puts| ==>
              GuardedAt(c, s, puts, versions, PutIfUntouchedGuarded(c, s, puts, versions), i)
  {
    if |puts| > 0 {
      var n := |puts| - 1;
      var pp, pv := puts[..n], versions[..n];
      PrefixDistinct(puts);
      PutIfUntouchedGuardedBatch(c, s, pp, pv);
      var prev := PutIfUntouchedGuarded(c, s, pp, pv);
      forall i | 0 <= i < |puts|
        ensures GuardedAt(c, s, puts, versions, PutIfUntouchedGuarded(c, s, puts, versions), i)
      {
        GuardedStep(c, s, puts, versions, prev, i);
      }
    }
  }

  /** The inductive step of `PutIfUntouchedGuardedBatch` for entry `i`. */
  lemma GuardedStep<T>(c: Codec<T>, s: Store, puts: seq<(Key, CasPut<T>)>, versions: seq<Uuid>,
                       prev: (Store, set<Key>), i: nat)
    requires |versions| == |puts| > 0 && i < |puts|
    requires prev == PutIfUntouchedGuarded(c, s, puts[..|puts| - 1], versions[..|puts| - 1])
    requires i < |puts| - 1 ==> GuardedAt(c, s, puts[..|puts| - 1], versions[..|puts| - 1], prev, i)
    requires i < |puts| - 1 ==> puts[i].0 != puts[|puts| - 1].0
    requires puts[|puts| - 1].0 !in KeySet(puts[..|puts| - 1])
    ensures GuardedAt(c, s, puts, versions, PutIfUntouchedGuarded(c, s, puts, versions), i)
  {
    var n := |puts| - 1;
    var kn := puts[n].0;
    assert Lookup(prev.0, kn) == Lookup(s, kn);
    assert Untouched(prev.0, kn, puts[n].1.iv) == Untouched(s, kn, puts[n].1.iv);
    if i < n {
      assert puts[..n][i] == puts[i] && versions[..n][i] == versions[i];
    }
  }

  /** When every key of the batch is present the two versions agree: the
      guard only changes what a missing key does. */
  lemma {:induction false} GuardedAgreesWhenPresent<T>(c: Codec<T>, s: Store, puts: seq<(Key, CasPut<T>)>, versions: seq<Uuid>)
    requires |versions| == |puts|
    requires KeySet(puts) <= s.Keys
    ensures PutIfUntouched(c, s, puts, versions).result == Success(PutIfUntouchedGuarded(c, s, puts, versions).1)
    ensures PutIfUntouched(c, s, puts, versions).store == PutIfUntouchedGuarded(c, s, puts, versions).0
  {
    if |puts| > 0 {
      var n := |puts| - 1;
      var pp, pv := puts[..n], versions[..n];
      assert KeySet(pp) <= KeySet(puts);
      GuardedAgreesWhenPresent(c, s, pp, pv);
      AgreeStep(c, s, puts, versions, PutIfUntouched(c, s, pp, pv), PutIfUntouchedGuarded(c, s, pp, pv));
    }
  }

  /** The inductive step of `GuardedAgreesWhenPresent`. */
  lemma AgreeStep<T>(c: Codec<T>, s: Store, puts: seq<(Key, CasPut<T>)>, versions: seq<Uuid>,
                     prev: CasOutcome, prevGuarded: (Store, set<Key>))
    requires |versions| == |puts| > 0
    requires prev == PutIfUntouched(c, s, puts[..|puts| - 1], versions[..|puts| - 1])
    requires prevGuarded == PutIfUntouchedGuarded(c, s, puts[..|puts| - 1], versions[..|puts| - 1])
    requires prev.result == Success(prevGuarded.1) && prev.store == prevGuarded.0
    requires puts[|puts| - 1].0 in prev.store
    ensures PutIfUntouched(c, s, puts, versions).result == Success(PutIfUntouchedGuarded(c, s, puts, versions).1)
    ensures PutIfUntouched(c, s, puts, versions).store == PutIfUntouchedGuarded(c, s, puts, versions).0
  {
  }

  /** A two-entry batch in which the first handle is current and the second
      key has been deleted: as written, the first key is overwritten but the
      call ends in the second key's script error, so the caller never learns
      of the first key's success. With the guard the call returns the first
      key alone. */
  lemma MissingKeyAbortsBatch<T>(c: Codec<T>, v1: Uuid, v2: Uuid, n1: Uuid, n2: Uuid, x: Value<T>)
    ensures var s := map["k1" := Entry(ToRedisString(c, IdentifiableValue(v1, Null)), NoExpiry)];
            var puts := [("k1", CasPut(IdentifiableValue(v1, Null), x, 0)),
                         ("k2", CasPut(IdentifiableValue(v2, Null), x, 0))];
            && PutIfUntouched(c, s, puts, [n1, n2]).result == Failure(ScriptError("k2"))
            && Lookup(PutIfUntouched(c, s, puts, [n1, n2]).store, "k1") == Some(CasEntry(c, puts[0].1, n1))
            && PutIfUntouchedGuarded(c, s, puts, [n1, n2]).1 == {"k1"}
  {
    var s := map["k1" := Entry(ToRedisString(c, IdentifiableValue(v1, Null)), NoExpiry)];
    var puts := [("k1", CasPut(IdentifiableValue(v1, Null), x, 0)),
                 ("k2", CasPut(IdentifiableValue(v2, Null), x, 0))];
    assert puts[..1] == [puts[0]];
    assert puts[..1][..0] == [];
    assert Untouched(s, "k1", puts[0].1.iv);
  }
}
