/** The remote Redis store as the facade uses it: a map from keys to byte
    strings, each with an optional time to live. Keys are the facade's
    strings; their UTF-8 encoding is taken to be injective and left out. */
module RedisStore {
  import opened Results
  import opened Bytes

  type Key = string

  /** Time to live recorded by `SET ... EX n`; a plain `SET` clears it. */
  datatype Expiry = NoExpiry | ExpiresIn(seconds: int)

  datatype Entry = Entry(blob: seq<byte>, expiry: Expiry)

  type Store = map<Key, Entry>

  /** The entry at `k`, `None` when the key is missing. */
  function Lookup(s: Store, k: Key): (r: Option<Entry>)
    ensures r.Some? <==> k in s
  {
    if k in s then Some(s[k]) else None
  }

  /** `GET`: the stored bytes, or a null reply (`None`) for a missing key. */
  function Get(s: Store, k: Key): (r: Option<seq<byte>>)
    ensures r.Some? <==> k in s
    ensures r.Some? ==> Lookup(s, k) == Some(Entry(r.value, s[k].expiry))
  {
    if k in s then Some(s[k].blob) else None
  }

  /** The error reply Redis gives a command called with too few arguments. */
  datatype CommandError = WrongArity(command: string)

  /** `MGET`: one reply per requested key, in request order, duplicates
      included. The command needs at least one key; with none, Redis rejects
      it with an arity error, which the client raises. */
  function MGet(s: Store, keys: seq<Key>): (r: Result<seq<Option<seq<byte>>>, CommandError>)
    ensures r.Failure? <==> |keys| == 0
    ensures r.Success? ==> |r.value| == |keys|
    ensures r.Success? ==> forall i :: 0 <= i < |keys| ==> r.value[i] == Get(s, keys[i])
  {
    if |keys| == 0 then Failure(WrongArity("mget"))
    else Success(seq(|keys|, i requires 0 <= i < |keys| => Get(s, keys[i])))
  }

  /** `SET`: overwrites unconditionally, replacing any earlier time to live. */
  function Set(s: Store, k: Key, blob: seq<byte>, expiry: Expiry): (r: Store)
    ensures Lookup(r, k) == Some(Entry(blob, expiry))
    ensures forall k' :: k' != k ==> Lookup(r, k') == Lookup(s, k')
  {
    s[k := Entry(blob, expiry)]
  }

  /** `DEL`: removing a missing key is not an error. */
  function Del(s: Store, k: Key): (r: Store)
    ensures Lookup(r, k) == None
    ensures forall k' :: k' != k ==> Lookup(r, k') == Lookup(s, k')
  {
    s - {k}
  }
}
