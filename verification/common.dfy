/** Vocabulary shared by the semantic cache and the semantic router: optional and
    failing results, the exceptions both components raise, and the opaque JSON
    values they store through Jackson. */
module Common {

  /** A Java reference that may be null (`None`), or a Redis answer that may be absent. */
  datatype Option<+T> = None | Some(value: T)

  /** The exceptions the two components raise, by kind. */
  datatype Error =
    | IllegalArgument(message: string)  // IllegalArgumentException: caller misuse, raised before any I/O
    | RoutingFailure(message: string)   // RedisRoutingException
    | CacheFailure(message: string)     // RedisCacheException
    | StoreFailure                      // an exception of the Redis client that nothing catches

  datatype Result<+T> = Ok(value: T) | Err(error: Error)

  /** An opaque JSON value: a metadata entry or a cached language-model response.
      `Unserializable` stands for an object Jackson cannot write. */
  datatype JsonValue =
    | JString(text: string)
    | JNumber(number: real)
    | JBool(flag: bool)
    | JNull
    | Unserializable

  /** Route metadata: Java's `Map<String, Object>`. */
  type Metadata = map<string, JsonValue>

  /** The text of a stored JSON field: the encoding of a value (decoding gives the
      value back), or text that does not decode as a `T`. */
  datatype Json<+T> = Encoded(value: T) | Garbled

  /** An embedding vector; its contents are never inspected. */
  type Vector = seq<real>

  predicate Serializable(v: JsonValue) {
    !v.Unserializable?
  }

  predicate MetadataSerializable(m: Metadata) {
    forall k :: k in m ==> Serializable(m[k])
  }

  /** `s == null || s.isEmpty()` for a Java String argument. */
  predicate NullOrEmpty(s: Option<string>) {
    s.None? || |s.value| == 0
  }

  /** The first `n` elements (all of them when there are fewer): a search `LIMIT`. */
  function Take<T>(s: seq<T>, n: nat): (r: seq<T>)
    ensures |r| == if n < |s| then n else |s|
    ensures forall i :: 0 <= i < |r| ==> r[i] == s[i]
  {
    if n < |s| then s[..n] else s
  }

  /** Every character of `s` differs from ':'. */
  predicate NoColon(s: string) {
    forall i :: 0 <= i < |s| ==> s[i] != ':'
  }

  predicate HasPrefix(s: string, p: string) {
    |p| <= |s| && s[..|p|] == p
  }
}
