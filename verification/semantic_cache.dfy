/** The semantic cache: responses stored under `prefix:<md5 hex>` with the prompt,
    the caller's scope string (`llmString`) and the prompt's embedding; a lookup takes
    the best hit of a k-NN search filtered to the scope and accepts it only when its
    score reaches the cache-wide threshold. */
module SemanticCache {
  import opened Common
  import opened Hex
  import opened KeySpace
  import opened Store

  const DefaultCachePrefix: string := "semantic-cache"

  /** The default threshold `0.2f`, a Java float, widened to double for the comparison:
      the float nearest to 0.2 is 13421773 / 2^26, slightly above 0.2. */
  const DefaultThreshold: real := 13421773.0 / 67108864.0

  /** The k of the k-NN query and its result limit. */
  const KnnSize: nat := 5

  const SerializeError: string := "Failed to serialize data for caching"
  const DeserializeError: string := "Failed to deserialize response from cache"

  /** The cache's configuration after construction; `ttl` is in seconds, `None` for no expiry. */
  datatype CacheConfig = CacheConfig(prefix: string, indexName: string, ttl: Option<int>, threshold: real)

  /** The JSON document of one cache entry. */
  datatype CacheDoc = CacheDoc(prompt: string, llm: string, response: Json<JsonValue>, vector: Vector)

  /** A document returned by the k-NN search with its `_score` (higher is more similar). */
  datatype CacheHit = CacheHit(doc: CacheDoc, score: real)

  /** The constructor: a null prefix or threshold takes its default; the ttl is kept as given. */
  function NewCache(ttl: Option<int>, prefix: Option<string>, threshold: Option<real>): (c: CacheConfig)
    ensures c.prefix == (if prefix.Some? then prefix.value else DefaultCachePrefix)
    ensures c.threshold == (if threshold.Some? then threshold.value else DefaultThreshold)
    ensures c.ttl == ttl
    ensures c.indexName == IndexName(c.prefix)
  {
    var p := if prefix.Some? then prefix.value else DefaultCachePrefix;
    CacheConfig(p, IndexName(p), ttl, if threshold.Some? then threshold.value else DefaultThreshold)
  }

  /** The widened default lies strictly between 0.2 and 0.2 + 2^-26. */
  lemma DefaultThresholdAboveFifth()
    ensures 0.2 < DefaultThreshold < 0.2 + 1.0 / 67108864.0
    ensures NewCache(None, None, None).threshold == DefaultThreshold
  {
  }

  /** `Builder.build()`: the Redis client and the embedding model are required. */
  function BuildCache(hasRedis: bool, hasEmbeddingModel: bool, ttl: Option<int>, prefix: Option<string>,
                      threshold: Option<real>): (r: Result<CacheConfig>)
    ensures !hasRedis ==> r == Err(IllegalArgument("Redis client is required"))
    ensures hasRedis && !hasEmbeddingModel ==> r == Err(IllegalArgument("Embedding model is required"))
    ensures hasRedis && hasEmbeddingModel ==> r == Ok(NewCache(ttl, prefix, threshold))
  {
    if !hasRedis then Err(IllegalArgument("Redis client is required"))
    else if !hasEmbeddingModel then Err(IllegalArgument("Embedding model is required"))
    else Ok(NewCache(ttl, prefix, threshold))
  }

  // ---------------------------------------------------------------------------
  // lookup
  // ---------------------------------------------------------------------------

  /** The query `createVectorQuery` builds: the exact-match filter `@llm:{scope}`, the
      embedding to compare with, and the `KNN k` clause whose size also bounds the
      reply (`limit(0, k)`). */
  datatype CacheQuery = CacheQuery(scope: string, vector: Vector, k: nat)

  /** `createVectorQuery(vector, llmString)`. */
  function VectorQuery(llm: string, vector: Vector): CacheQuery {
    CacheQuery(llm, vector, KnnSize)
  }

  /** A reply the server may give to `q` over `store`: at most k hits, each a stored
      document passing the scope filter, best score first. */
  ghost predicate QueryReply(store: Store<CacheDoc>, q: CacheQuery, hits: seq<CacheHit>) {
    && |hits| <= q.k
    && (forall i :: 0 <= i < |hits| ==> hits[i].doc in store.Values && hits[i].doc.llm == q.scope)
    && (forall i :: 0 <= i < |hits| ==> hits[i].score <= hits[0].score)
  }

  /** The server answers every query it does answer as `QueryReply` allows. */
  ghost predicate Honours(store: Store<CacheDoc>, search: CacheQuery -> Search<CacheHit>) {
    forall q :: search(q).Hits? ==> QueryReply(store, q, search(q).docs)
  }

  /** `lookup(prompt, llmString)`: embed the prompt, search with the query filtered to
      `llmString`, and take the best hit. Nothing when there is no hit or the best hit
      scores below the threshold, its decoded response otherwise. A failing search
      propagates; a response that does not decode is a cache failure. */
  function Lookup(cfg: CacheConfig, prompt: string, llm: string, embed: string -> Vector,
                  search: CacheQuery -> Search<CacheHit>): (r: Result<Option<JsonValue>>)
    ensures var reply := search(VectorQuery(llm, embed(prompt)));
      && (reply.SearchFailed? ==> r == Err(StoreFailure))
      && (reply.Hits? ==>
            (r == Ok(None) <==> |reply.docs| == 0 || reply.docs[0].score < cfg.threshold))
      && (reply.Hits? && r.Ok? && r.value.Some? ==>
            reply.docs[0].score >= cfg.threshold && reply.docs[0].doc.response == Encoded(r.value.value))
      && (reply.Hits? && r.Err? ==>
            r.error == CacheFailure(DeserializeError) && reply.docs[0].doc.response.Garbled?)
  {
    match search(VectorQuery(llm, embed(prompt)))
    case SearchFailed => Err(StoreFailure)
    case Hits(docs) =>
      if |docs| == 0 then Ok(None)
      else
        var best := docs[0];
        if best.score < cfg.threshold then Ok(None)
        else match best.doc.response
          case Encoded(v) => Ok(Some(v))
          case Garbled => Err(CacheFailure(DeserializeError))
  }

  /** Scope isolation: whatever the server holds, a hit of `lookup(prompt, llm)` is the
      response of an entry stored for `llm` itself, since the query lookup issues
      filters on `llm`. */
  lemma LookupScoped(cfg: CacheConfig, prompt: string, llm: string, embed: string -> Vector,
                     search: CacheQuery -> Search<CacheHit>, store: Store<CacheDoc>)
    requires Honours(store, search)
    ensures var r := Lookup(cfg, prompt, llm, embed, search);
      r.Ok? && r.value.Some? ==>
        exists k :: k in store && store[k].llm == llm && store[k].response == Encoded(r.value.value)
  {
    var q := VectorQuery(llm, embed(prompt));
    var r := Lookup(cfg, prompt, llm, embed, search);
    if r.Ok? && r.value.Some? {
      var hits := search(q).docs;
      assert QueryReply(store, q, hits);
      assert hits[0].doc in store.Values && hits[0].doc.llm == q.scope;
      var k :| k in store && store[k] == hits[0].doc;
    }
  }

  /** Only the best hit counts: two servers whose replies to the lookup's query start
      with the same hit give the same answer, whatever follows it, even a lower hit that
      would pass the threshold. */
  lemma LookupUsesBestOnly(cfg: CacheConfig, prompt: string, llm: string, embed: string -> Vector,
                           s1: CacheQuery -> Search<CacheHit>, s2: CacheQuery -> Search<CacheHit>)
    requires var q := VectorQuery(llm, embed(prompt));
      s1(q).Hits? && s2(q).Hits? && |s1(q).docs| > 0 && |s2(q).docs| > 0 && s1(q).docs[0] == s2(q).docs[0]
    ensures Lookup(cfg, prompt, llm, embed, s1) == Lookup(cfg, prompt, llm, embed, s2)
  {
  }

  // ---------------------------------------------------------------------------
  // update
  // ---------------------------------------------------------------------------

  /** The key `update` writes: the hex MD5 of prompt, scope and the time in milliseconds. */
  function EntryKey(cfg: CacheConfig, prompt: string, llm: string, millis: nat, md5: string -> seq<JByte>): (key: string)
    ensures HasPrefix(key, PrefixStem(cfg.prefix))
    ensures key[|cfg.prefix| + 1..] == HexOf(md5(prompt + llm + Decimal(millis)))
    ensures NoColon(key[|cfg.prefix| + 1..])
  {
    CacheKey(cfg.prefix, md5(CacheKeyInput(prompt, llm, millis)))
  }

  /** `update(prompt, llmString, response)` at time `millis`: one `JSON.SET` of the entry
      under a fresh key, followed by an `EXPIRE` when a ttl is configured. A response
      Jackson cannot write is a cache failure and nothing is written. */
  function Update(cfg: CacheConfig, prompt: string, llm: string, response: JsonValue, embed: string -> Vector,
                  millis: nat, md5: string -> seq<JByte>): (r: Result<seq<Command<CacheDoc>>>)
    ensures r.Err? <==> !Serializable(response)
    ensures r.Err? ==> r.error == CacheFailure(SerializeError)
    ensures r.Ok? ==>
      var key := EntryKey(cfg, prompt, llm, millis, md5);
      && |r.value| == (if cfg.ttl.Some? then 2 else 1)
      && r.value[0] == JsonSet(key, CacheDoc(prompt, llm, Encoded(response), embed(prompt)))
      && (cfg.ttl.Some? ==> r.value[1] == Expire(key, cfg.ttl.value))
      && HasPrefix(key, PrefixStem(cfg.prefix))
  {
    if !Serializable(response) then Err(CacheFailure(SerializeError))
    else
      var key := EntryKey(cfg, prompt, llm, millis, md5);
      var write := JsonSet(key, CacheDoc(prompt, llm, Encoded(response), embed(prompt)));
      Ok([write] + if cfg.ttl.Some? then [Expire(key, cfg.ttl.value)] else [])
  }

  /** An update's effect on the store: the new entry under its key, every other key
      untouched. */
  lemma UpdateEffect(cfg: CacheConfig, prompt: string, llm: string, response: JsonValue, embed: string -> Vector,
                     millis: nat, md5: string -> seq<JByte>, store: Store<CacheDoc>)
    requires Serializable(response)
    ensures var key := EntryKey(cfg, prompt, llm, millis, md5);
      var after := Apply(store, Update(cfg, prompt, llm, response, embed, millis, md5).value);
      && key in after && after[key] == CacheDoc(prompt, llm, Encoded(response), embed(prompt))
      && (forall k :: k != key ==> (k in after <==> k in store))
      && (forall k :: k != key && k in store ==> after[k] == store[k])
  {
    var key := EntryKey(cfg, prompt, llm, millis, md5);
    var w := Update(cfg, prompt, llm, response, embed, millis, md5).value;
    assert Written(w, key) by {
      assert w[0].JsonSet?;
    }
    assert forall i :: 0 <= i < |w| && w[i].JsonSet? ==> i == 0;
    assert forall k :: Written(w, k) ==> k == key;
  }

  /** Store-then-retrieve: after an update, a lookup in the same scope whose best hit
      is the new entry, scored at least at the threshold, returns the response that was
      stored; the entry sits under the update's key. */
  lemma UpdateThenLookup(cfg: CacheConfig, prompt: string, llm: string, response: JsonValue, embed: string -> Vector,
                         millis: nat, md5: string -> seq<JByte>, store: Store<CacheDoc>,
                         asked: string, search: CacheQuery -> Search<CacheHit>)
    requires Serializable(response)
    requires var reply := search(VectorQuery(llm, embed(asked)));
      reply.Hits? && |reply.docs| > 0 && reply.docs[0].score >= cfg.threshold
      && reply.docs[0].doc == CacheDoc(prompt, llm, Encoded(response), embed(prompt))
    ensures Lookup(cfg, asked, llm, embed, search) == Ok(Some(response))
    ensures var key := EntryKey(cfg, prompt, llm, millis, md5);
      var after := Apply(store, Update(cfg, prompt, llm, response, embed, millis, md5).value);
      key in after && after[key] == search(VectorQuery(llm, embed(asked))).docs[0].doc
  {
    UpdateEffect(cfg, prompt, llm, response, embed, millis, md5, store);
  }

  /** Updating the same prompt and scope twice, at different instants, keeps both
      entries: distinct times give distinct hashed inputs, and so, with a digest that
      separates them, distinct keys. */
  lemma UpdatesCoexist(cfg: CacheConfig, prompt: string, llm: string, r1: JsonValue, r2: JsonValue,
                       embed: string -> Vector, t1: nat, t2: nat, md5: string -> seq<JByte>, store: Store<CacheDoc>)
    requires Serializable(r1) && Serializable(r2) && t1 != t2
    requires CacheKeyInput(prompt, llm, t1) != CacheKeyInput(prompt, llm, t2) ==>
      md5(CacheKeyInput(prompt, llm, t1)) != md5(CacheKeyInput(prompt, llm, t2))
    ensures var k1 := EntryKey(cfg, prompt, llm, t1, md5);
      var k2 := EntryKey(cfg, prompt, llm, t2, md5);
      var after := Apply(Apply(store, Update(cfg, prompt, llm, r1, embed, t1, md5).value),
                         Update(cfg, prompt, llm, r2, embed, t2, md5).value);
      && k1 != k2
      && k1 in after && after[k1] == CacheDoc(prompt, llm, Encoded(r1), embed(prompt))
      && k2 in after && after[k2] == CacheDoc(prompt, llm, Encoded(r2), embed(prompt))
  {
    CacheKeyInputsDiffer(prompt, llm, t1, t2);
    CacheKeyInjective(cfg.prefix, md5(CacheKeyInput(prompt, llm, t1)), md5(CacheKeyInput(prompt, llm, t2)));
    UpdateEffect(cfg, prompt, llm, r1, embed, t1, md5, store);
    var mid := Apply(store, Update(cfg, prompt, llm, r1, embed, t1, md5).value);
    UpdateEffect(cfg, prompt, llm, r2, embed, t2, md5, mid);
  }
}
