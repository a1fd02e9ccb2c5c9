/** `RedisIdentifiableValue`: a cached value stamped with a 128-bit version,
    and its storage form, the 16 version bytes followed by the serialized value. */
module Envelope {
  import opened Results
  import opened Bytes

  /** A `java.util.UUID`, held as its two signed 64-bit halves. */
  datatype Uuid = Uuid(mostSig: int64, leastSig: int64)

  /** A Java object reference as the cache sees it: `Null` is a cached null,
      which is a value in its own right and not a miss. */
  datatype Value<T> = Null | Obj(obj: T)

  /** Java object serialization, kept abstract: `deserialize` returns `None`
      where `ObjectInputStream.readObject` would throw. */
  datatype Codec<!T> = Codec(serialize: Value<T> -> seq<byte>,
                            deserialize: seq<byte> -> Option<Value<T>>)

  /** The codec reads back what it wrote for `v`. */
  ghost predicate RoundTrips<T>(c: Codec<T>, v: Value<T>) {
    c.deserialize(c.serialize(v)) == Some(v)
  }

  /** A value together with the version it was stamped with. Equality is the
      generated (Lombok `@Data`) one: same version and same value. */
  datatype IdentifiableValue<T> = IdentifiableValue(version: Uuid, value: Value<T>)

  /** Why `fromRedisString` throws. */
  datatype DecodeError =
    | NullInput          // `new ByteArrayInputStream(null)` dereferences null
    | Truncated          // `readLong` runs out of bytes
    | Undeserializable   // `readObject` fails on the remaining bytes

  /** Length of the version prefix of every stored blob. */
  const VERSION_BYTES: nat := 16

  /** The version read back from a 16-byte prefix: two `readLong`s. */
  function ReadVersion(prefix: seq<byte>): Uuid
    requires |prefix| == VERSION_BYTES
  {
    Uuid(ReadLong(prefix[..LONG_BYTES]), ReadLong(prefix[LONG_BYTES..]))
  }

  /** `getVersionRedisString`: the two halves written big-endian, nothing else. */
  function VersionBytes(u: Uuid): (r: seq<byte>)
    ensures |r| == VERSION_BYTES
  {
    WriteLong(u.mostSig) + WriteLong(u.leastSig)
  }

  /** The version bytes read back as the version they were written from. */
  lemma ReadVersionBytes(u: Uuid)
    ensures ReadVersion(VersionBytes(u)) == u
  {
    var r := VersionBytes(u);
    assert r[..LONG_BYTES] == WriteLong(u.mostSig);
    assert r[LONG_BYTES..] == WriteLong(u.leastSig);
    ReadWriteLong(u.mostSig);
    ReadWriteLong(u.leastSig);
  }

  /** Distinct versions have distinct prefixes: what lets a CAS see that a
      handle is stale. */
  lemma VersionBytesInjective(u: Uuid, w: Uuid)
    ensures VersionBytes(u) == VersionBytes(w) <==> u == w
  {
    ReadVersionBytes(u);
    ReadVersionBytes(w);
  }

  /** Every 16-byte prefix is the prefix of some version: the version bytes
      are a bijection between `UUID`s and 16-byte blocks. */
  lemma VersionBytesOnto(prefix: seq<byte>)
    requires |prefix| == VERSION_BYTES
    ensures VersionBytes(ReadVersion(prefix)) == prefix
  {
    var hi, lo := prefix[..LONG_BYTES], prefix[LONG_BYTES..];
    WriteReadLong(hi);
    WriteReadLong(lo);
    assert prefix == hi + lo;
  }

  /** `toRedisString`: version prefix, then the serialized value. */
  function ToRedisString<T>(c: Codec<T>, iv: IdentifiableValue<T>): (r: seq<byte>)
    ensures |r| >= VERSION_BYTES
    ensures r[..VERSION_BYTES] == VersionBytes(iv.version)
    ensures r[VERSION_BYTES..] == c.serialize(iv.value)
  {
    VersionBytes(iv.version) + c.serialize(iv.value)
  }

  /** `fromRedisString`, with a `null` array as `None`. */
  function FromRedisString<T>(c: Codec<T>, input: Option<seq<byte>>): (r: Result<IdentifiableValue<T>, DecodeError>)
    ensures input.None? ==> r == Failure(NullInput)
    ensures input.Some? && |input.value| < VERSION_BYTES ==> r == Failure(Truncated)
    ensures input.Some? && |input.value| >= VERSION_BYTES ==>
              (r.Success? <==> c.deserialize(input.value[VERSION_BYTES..]).Some?)
    ensures r.Success? ==>
              && input.Some? && |input.value| >= VERSION_BYTES
              && r.value.version == ReadVersion(input.value[..VERSION_BYTES])
              && c.deserialize(input.value[VERSION_BYTES..]) == Some(r.value.value)
  {
    match input
    case None => Failure(NullInput)
    case Some(bytes) =>
      if |bytes| < VERSION_BYTES then Failure(Truncated)
      else
        match c.deserialize(bytes[VERSION_BYTES..])
        case None => Failure(Undeserializable)
        case Some(v) => Success(IdentifiableValue(ReadVersion(bytes[..VERSION_BYTES]), v))
  }

  /** Decoding an encoded envelope gives it back, whenever the payload codec
      round-trips its value. */
  lemma EnvelopeRoundTrip<T>(c: Codec<T>, iv: IdentifiableValue<T>)
    requires RoundTrips(c, iv.value)
    ensures FromRedisString(c, Some(ToRedisString(c, iv))) == Success(iv)
  {
    ReadVersionBytes(iv.version);
    var r := FromRedisString(c, Some(ToRedisString(c, iv)));
    assert r.Success?;
  }

  /** The decoded version is a function of the first 16 bytes alone: two blobs
      that share a prefix decode to the same version, whatever follows. */
  lemma VersionOnlyFromPrefix<T>(c: Codec<T>, a: seq<byte>, b: seq<byte>)
    requires |a| >= VERSION_BYTES && |b| >= VERSION_BYTES
    requires a[..VERSION_BYTES] == b[..VERSION_BYTES]
    requires FromRedisString(c, Some(a)).Success? && FromRedisString(c, Some(b)).Success?
    ensures FromRedisString(c, Some(a)).value.version == FromRedisString(c, Some(b)).value.version
  {
  }

  /** The one-argument constructor: keeps `value` and attaches the supplied
      fresh version (the source draws it with `UUID.randomUUID()`). Its storage
      form carries exactly that version, followed by the unchanged value's
      serialization. */
  function Stamp<T>(c: Codec<T>, value: Value<T>, newVersion: Uuid): (iv: IdentifiableValue<T>)
    ensures ReadVersion(ToRedisString(c, iv)[..VERSION_BYTES]) == newVersion
    ensures ToRedisString(c, iv)[VERSION_BYTES..] == c.serialize(value)
  {
    ReadVersionBytes(newVersion);
    IdentifiableValue(newVersion, value)
  }
}
