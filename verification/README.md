# Redis semantic router and semantic cache, modelled in Dafny

This project models the two Redis-backed components of `langchain4j-community-redis`:

- **`RedisSemanticRouter`** stores named routes. Each route has reference utterances, a similarity threshold and metadata, and each reference is stored as one JSON document under `prefix:name:<md5 hex>`. The router:
  - routes a text to the matching routes, ranked by score;
  - adds, looks up, lists and removes routes;
  - clears its whole key space.
- **`RedisSemanticCache`** stores language-model responses.
  - An entry lives under `prefix:<md5 hex of prompt + scope + time>`.
  - `lookup` accepts only the best hit of a scope-filtered k-NN search, and only when its score reaches the cache-wide threshold.

Redis is modelled as a map from keys to JSON documents (`Store`). Writes are a list of commands (`JSON.SET`, `EXPIRE`) applied in order.

Everything the components receive from outside arrives as a parameter:
- a search reply (`Search`): the documents in the server's order, or a failure; the cache's lookup receives the server as a function from the query it builds (`CacheQuery`: scope filter, vector, k) to its reply;
- the replies of a SCAN iteration;
- the embedding function;
- the MD5 digest function;
- the current time.

The search engine and the digest algorithm are therefore not modelled. Instead, predicates state what a reply may contain relative to the store:
- `Sound`: every returned document is stored and matches the query;
- `Complete`: every stored match is returned;
- `NameReply`: sound, and non-empty when the route has a document;
- `QueryReply`: every hit is a stored document passing the query's scope filter, at most k hits, best score first; `Honours` says the server answers every cache query that way;
- `ScanCovers`: a full SCAN returned every stored key that matches the pattern;
- `ScanMatches`: every key it returned matches the pattern.

Module layout:

| file | module | contents |
|---|---|---|
| `common.dfy` | `Common` | options, results, the exceptions, opaque JSON values |
| `hex.dfy` | `Hex` | the digest-to-hex rendering both classes share |
| `keyspace.dfy` | `KeySpace` | index names, key layout, route ownership of keys, the cache key input |
| `store.dfy` | `Store` | the store, write commands, search replies, the SCAN/DEL loop shared by `removeRoute` and both `clear()` methods (identical in the two classes, modelled once) |
| `router_model.dfy` | `RouterModel` | router entities and construction |
| `route_aggregation.dfy` | `RouteAggregation` | the per-route aggregation and sorting inside `route` |
| `semantic_router.dfy` | `SemanticRouter` | the router's public operations and their properties |
| `semantic_cache.dfy` | `SemanticCache` | the cache's construction, `lookup`, `update`, `clear` and their properties |

Scores and thresholds are modelled as `real`. A hit qualifies when `score >= threshold`, because the source skips hits with `score < threshold`. Higher scores mean more similar, as the source's comments say. The router's integration test reads the threshold the other way, as an upper bound on a distance; see "## Findings".

The cache's default threshold `0.2f` is a Java `float`, widened to `double` for the comparison. It is modelled exactly, as 13421773 / 2^26.

## Model

| member | source | states |
|---|---|---|
| Hex.Unsigned | embedding-stores/langchain4j-community-redis/src/main/java/dev/langchain4j/community/store/routing/redis/RedisSemanticRouter.java:482 | `0xff & b` is below 256 and congruent to the signed byte modulo 256 |
| Hex.ToHexString | embedding-stores/langchain4j-community-redis/src/main/java/dev/langchain4j/community/store/routing/redis/RedisSemanticRouter.java:482 | `Integer.toHexString` yields lowercase hex digits whose value is the number, without a leading zero, one digit exactly when the number is below 16 |
| Hex.ByteHex | embedding-stores/langchain4j-community-redis/src/main/java/dev/langchain4j/community/store/routing/redis/RedisSemanticRouter.java:482-484 | a byte always renders as exactly two hex digits whose value is the unsigned byte (single digits are padded with '0') |
| Hex.HexOf | embedding-stores/langchain4j-community-redis/src/main/java/dev/langchain4j/community/store/routing/redis/RedisSemanticRouter.java:475-491 | the digest renders as two hex digits per byte, pair i having the value of byte i read unsigned |
| Hex.UnhexOfHexOf | embedding-stores/langchain4j-community-redis/src/main/java/dev/langchain4j/community/store/routing/redis/RedisSemanticRouter.java:480-487 | reading the rendering back pairwise gives every digest byte, unsigned: the rendering loses nothing |
| Hex.HexOfInjective | embedding-stores/langchain4j-community-redis/src/main/java/dev/langchain4j/community/store/cache/redis/RedisSemanticCache.java:301-317 | distinct digests render to distinct strings |
| Hex.Md5HexLength | embedding-stores/langchain4j-community-redis/src/main/java/dev/langchain4j/community/store/cache/redis/RedisSemanticCache.java:304-313 | a 16-byte MD5 digest renders to 32 characters, none of them ':' |
| KeySpace.IndexNameInjective | embedding-stores/langchain4j-community-redis/src/main/java/dev/langchain4j/community/store/routing/redis/RedisSemanticRouter.java:83 | `prefix + "-index"` determines the prefix: two prefixes never share an index |
| KeySpace.RouterKey | embedding-stores/langchain4j-community-redis/src/main/java/dev/langchain4j/community/store/routing/redis/RedisSemanticRouter.java:381-384 | a route key starts with `prefix:name:` (and so with `prefix:`) and continues with the digest's hex |
| KeySpace.RouterKeyOwned | embedding-stores/langchain4j-community-redis/src/main/java/dev/langchain4j/community/store/routing/redis/RedisSemanticRouter.java:381-384 | every generated route key is owned by its route: after `prefix:name:` no ':' follows |
| KeySpace.OwnerUnique | embedding-stores/langchain4j-community-redis/src/main/java/dev/langchain4j/community/store/routing/redis/RedisSemanticRouter.java:383 | a key is owned by at most one route name |
| KeySpace.NestedRouteKey | embedding-stores/langchain4j-community-redis/src/main/java/dev/langchain4j/community/store/routing/redis/RedisSemanticRouter.java:381-384 | a key of route `name:sub` matches the removal pattern of route `name` but is not one of `name`'s keys |
| KeySpace.RouterKeyInjective | embedding-stores/langchain4j-community-redis/src/main/java/dev/langchain4j/community/store/routing/redis/RedisSemanticRouter.java:381-384 | within one route, distinct digests give distinct keys |
| KeySpace.Decimal | embedding-stores/langchain4j-community-redis/src/main/java/dev/langchain4j/community/store/cache/redis/RedisSemanticCache.java:189 | the decimal rendering of the time is a non-empty digit string whose value is the number, with no leading zero, one digit exactly when the number is below 10 |
| KeySpace.CacheKey | embedding-stores/langchain4j-community-redis/src/main/java/dev/langchain4j/community/store/cache/redis/RedisSemanticCache.java:187-191 | a cache key is `prefix:` followed by the hex rendering of the digest |
| KeySpace.CacheKeyInjective | embedding-stores/langchain4j-community-redis/src/main/java/dev/langchain4j/community/store/cache/redis/RedisSemanticCache.java:187-191 | two cache keys under one prefix coincide only when their digests do |
| KeySpace.CacheKeyInputsDiffer | embedding-stores/langchain4j-community-redis/src/main/java/dev/langchain4j/community/store/cache/redis/RedisSemanticCache.java:189 | the same prompt and scope at two different instants give different hashed inputs |
| KeySpace.CacheKeyInputAmbiguous | embedding-stores/langchain4j-community-redis/src/main/java/dev/langchain4j/community/store/cache/redis/RedisSemanticCache.java:189 | prompt and scope are joined without a separator, so ("ab", "c") and ("a", "bc") hash the same input at the same instant |
| Store.Apply | embedding-stores/langchain4j-community-redis/src/main/java/dev/langchain4j/community/store/routing/redis/RedisSemanticRouter.java:129 | after the writes, a written key holds the document of the last `JSON.SET` to it; every other key keeps its value; `EXPIRE` changes no content |
| Store.ScanDelete | embedding-stores/langchain4j-community-redis/src/main/java/dev/langchain4j/community/store/routing/redis/RedisSemanticRouter.java:149-164 | the do-while SCAN loop makes exactly as many calls as it takes to reach cursor "0", deletes the union of the selected keys of those replies, and reports a deletion exactly when some reply had a selected key |
| Store.SweptMembers | embedding-stores/langchain4j-community-redis/src/main/java/dev/langchain4j/community/store/routing/redis/RedisSemanticRouter.java:153-162 | a key is deleted exactly when some reply of the iteration returned it and the selector picks it |
| Store.SweepAll | embedding-stores/langchain4j-community-redis/src/main/java/dev/langchain4j/community/store/cache/redis/RedisSemanticCache.java:165-178 | after a complete SCAN for `stem*`, no key under the stem remains; if the SCAN returned only matching keys, every other key survives |
| Store.Clear | embedding-stores/langchain4j-community-redis/src/main/java/dev/langchain4j/community/store/routing/redis/RedisSemanticRouter.java:322-335 | `clear()` of either component: after a complete SCAN for `prefix:*`, no key under `prefix:` remains; keys outside it survive when the SCAN returned only matching keys |
| RouterModel.NewRouter | embedding-stores/langchain4j-community-redis/src/main/java/dev/langchain4j/community/store/routing/redis/RedisSemanticRouter.java:78-89 | null prefix and maxResults take "semantic-router" and 5; the index name extends the prefix; the dimension is 1536 |
| RouterModel.BuildRouter | embedding-stores/langchain4j-community-redis/src/main/java/dev/langchain4j/community/store/routing/redis/RedisSemanticRouter.java:545-554 | a missing Redis client, then a missing embedding model, is rejected with its message; otherwise the constructor's configuration |
| RouteAggregation.IndexOfRoute | embedding-stores/langchain4j-community-redis/src/main/java/dev/langchain4j/community/store/routing/redis/RedisSemanticRouter.java:224-225 | the lookup finds the entry of the route, or reports that no entry has that name |
| RouteAggregation.Step | embedding-stores/langchain4j-community-redis/src/main/java/dev/langchain4j/community/store/routing/redis/RedisSemanticRouter.java:207-231 | one pass of the loop: it fails exactly on a qualifying hit whose metadata does not parse; a hit below its threshold changes nothing; afterwards the listed routes are the earlier ones plus the hit's route if it qualifies, with at most one entry added |
| RouteAggregation.Fold | embedding-stores/langchain4j-community-redis/src/main/java/dev/langchain4j/community/store/routing/redis/RedisSemanticRouter.java:207-235 | the loop over the hits fails only with "Failed to deserialize metadata" and otherwise yields at most one entry per hit |
| RouteAggregation.QualifiesLowerAccepts | embedding-stores/langchain4j-community-redis/src/main/java/dev/langchain4j/community/store/routing/redis/RedisSemanticRouter.java:213-215 | as written, of two documents scored alike the one with the lower threshold qualifies whenever the one with the higher threshold does |
| RouteAggregation.WithinLooserAccepts | embedding-stores/langchain4j-community-redis/src/test/java/dev/langchain4j/community/store/routing/redis/RedisSemanticRouterIT.java:179-210 | read as a distance bound, the larger threshold accepts whatever the smaller accepts, and alone accepts distances between the two |
| RouteAggregation.StepAggregates | embedding-stores/langchain4j-community-redis/src/main/java/dev/langchain4j/community/store/routing/redis/RedisSemanticRouter.java:207-235 | one loop pass keeps the invariant (one entry per route, each the first-seen best qualifying hit of its route, every qualifying route present) and fails exactly on a qualifying hit whose metadata does not parse |
| RouteAggregation.FoldAggregates | embedding-stores/langchain4j-community-redis/src/main/java/dev/langchain4j/community/store/routing/redis/RedisSemanticRouter.java:205-235 | the whole loop yields that aggregation, and fails with "Failed to deserialize metadata" exactly when some qualifying hit's metadata does not parse |
| RouteAggregation.Insert | embedding-stores/langchain4j-community-redis/src/main/java/dev/langchain4j/community/store/routing/redis/RedisSemanticRouter.java:240 | inserting into a descending list keeps it descending and adds exactly one element |
| RouteAggregation.SortByScore | embedding-stores/langchain4j-community-redis/src/main/java/dev/langchain4j/community/store/routing/redis/RedisSemanticRouter.java:238-241 | the sort yields a permutation of the matches ordered by descending score |
| RouteAggregation.SortDistinct | embedding-stores/langchain4j-community-redis/src/main/java/dev/langchain4j/community/store/routing/redis/RedisSemanticRouter.java:238-241 | sorting keeps one entry per route |
| RouteAggregation.Aggregate | embedding-stores/langchain4j-community-redis/src/main/java/dev/langchain4j/community/store/routing/redis/RedisSemanticRouter.java:204-241 | the answer for a list of hits is ordered by descending score, holds one match per route, each with the best qualifying score of its route and the winning hit's metadata, and holds every route with a qualifying hit; it fails exactly on unparsable metadata of a qualifying hit |
| SemanticRouter.RouteExists | embedding-stores/langchain4j-community-redis/src/main/java/dev/langchain4j/community/store/routing/redis/RedisSemanticRouter.java:343-355 | an empty name is rejected; a failing search answers false; otherwise true exactly when the reply has a document |
| SemanticRouter.RouteExistsAnswers | embedding-stores/langchain4j-community-redis/src/main/java/dev/langchain4j/community/store/routing/redis/RedisSemanticRouter.java:348-351 | answered by the store, the result is true exactly when some stored document belongs to the route |
| SemanticRouter.RouteWrites | embedding-stores/langchain4j-community-redis/src/main/java/dev/langchain4j/community/store/routing/redis/RedisSemanticRouter.java:112-130 | one write per reference, in order, under the route's key for that reference, carrying the route's name, threshold and metadata |
| SemanticRouter.AddRoute | embedding-stores/langchain4j-community-redis/src/main/java/dev/langchain4j/community/store/routing/redis/RedisSemanticRouter.java:97-136 | a null route and an empty name are rejected; an existing route is left alone with success; a serialization failure happens exactly for unserializable metadata with at least one reference; otherwise every reference is written |
| SemanticRouter.AddAfterFailedCheck | embedding-stores/langchain4j-community-redis/src/main/java/dev/langchain4j/community/store/routing/redis/RedisSemanticRouter.java:343-355 | a failing existence search counts as "absent", so `addRoute` writes every reference; a route without references is reported added with no write |
| SemanticRouter.AddedReply | embedding-stores/langchain4j-community-redis/src/main/java/dev/langchain4j/community/store/routing/redis/RedisSemanticRouter.java:97-138 | after a new route is added, a sound and complete name reply holds exactly one document per reference of the route, and nothing else |
| SemanticRouter.RebuiltRoute | embedding-stores/langchain4j-community-redis/src/main/java/dev/langchain4j/community/store/routing/redis/RedisSemanticRouter.java:274-317 | `getRoute` over exactly a route's reference documents gives back that route's name, threshold, metadata and reference set |
| SemanticRouter.AddThenGet | embedding-stores/langchain4j-community-redis/src/main/java/dev/langchain4j/community/store/routing/redis/RedisSemanticRouter.java:97-136 | a route added to a store without it reads back through `getRoute` with the same name, threshold, metadata and set of references |
| SemanticRouter.AddTwiceNoop | embedding-stores/langchain4j-community-redis/src/main/java/dev/langchain4j/community/store/routing/redis/RedisSemanticRouter.java:103-106 | once a route with references is stored, adding it again writes nothing |
| SemanticRouter.AddKeepsWellKeyed | embedding-stores/langchain4j-community-redis/src/main/java/dev/langchain4j/community/store/routing/redis/RedisSemanticRouter.java:116-129 | adding a route keeps every stored document under a key owned by its own route |
| SemanticRouter.RouteText | embedding-stores/langchain4j-community-redis/src/main/java/dev/langchain4j/community/store/routing/redis/RedisSemanticRouter.java:184-242 | an empty text is rejected; a failing search propagates; otherwise the answer for the first `limit` hits is correct as `Aggregate` states, and holds at most `limit` matches |
| SemanticRouter.RouteDefault | embedding-stores/langchain4j-community-redis/src/main/java/dev/langchain4j/community/store/routing/redis/RedisSemanticRouter.java:173-175 | `route(text)` returns at most `maxResults` matches |
| SemanticRouter.MatchesBounded | embedding-stores/langchain4j-community-redis/src/main/java/dev/langchain4j/community/store/routing/redis/RedisSemanticRouter.java:205-241 | a correct answer has no more matches than there are hits |
| SemanticRouter.QualifyingHitRouted | embedding-stores/langchain4j-community-redis/src/main/java/dev/langchain4j/community/store/routing/redis/RedisSemanticRouter.java:212-231 | a hit reaching its threshold puts its route in the answer with a score at least the hit's, and so at least the threshold |
| SemanticRouter.AbsentRouteNotRouted | embedding-stores/langchain4j-community-redis/src/main/java/dev/langchain4j/community/store/routing/redis/RedisSemanticRouter.java:207-235 | a route without a hit never appears in the answer |
| SemanticRouter.RaisedThresholdSelective | embedding-stores/langchain4j-community-redis/src/main/java/dev/langchain4j/community/store/routing/redis/RedisSemanticRouter.java:213-215 | raising thresholds adds no metadata failure, and every route still matched was matched before with at least the same score |
| SemanticRouter.LooseRouteNeverAlone | embedding-stores/langchain4j-community-redis/src/main/java/dev/langchain4j/community/store/routing/redis/RedisSemanticRouter.java:207-235 | as written, when routes "easy_match" (0.9) and "hard_match" (0.1) score alike, an answer naming "easy_match" also names "hard_match" |
| SemanticRouter.Dedup | embedding-stores/langchain4j-community-redis/src/main/java/dev/langchain4j/community/store/routing/redis/RedisSemanticRouter.java:258-260 | collecting names into a set keeps each name exactly once |
| SemanticRouter.ListRoutes | embedding-stores/langchain4j-community-redis/src/main/java/dev/langchain4j/community/store/routing/redis/RedisSemanticRouter.java:249-266 | a failing search lists nothing; otherwise the distinct route names of the first 10000 documents |
| SemanticRouter.ListRoutesAnswers | embedding-stores/langchain4j-community-redis/src/main/java/dev/langchain4j/community/store/routing/redis/RedisSemanticRouter.java:254-260 | answered with every stored document, the list names exactly the routes that have a document |
| SemanticRouter.GetRoute | embedding-stores/langchain4j-community-redis/src/main/java/dev/langchain4j/community/store/routing/redis/RedisSemanticRouter.java:274-317 | an empty name is rejected; a failing search is "Error retrieving route: name"; no documents means no route; otherwise the references in reply order, the last document's threshold and the first document's metadata (empty if it does not parse) |
| SemanticRouter.RemoveRoute | embedding-stores/langchain4j-community-redis/src/main/java/dev/langchain4j/community/store/routing/redis/RedisSemanticRouter.java:144-165 | as written: an empty name is rejected and any other name succeeds; every key the SCAN for `prefix:name:*` returns is deleted; after a complete SCAN nothing of the route remains |
| SemanticRouter.RemoveRouteExact | embedding-stores/langchain4j-community-redis/src/main/java/dev/langchain4j/community/store/routing/redis/RedisSemanticRouter.java:144-165 | corrected: an empty name is rejected and any other name succeeds; after a complete SCAN, a key remains exactly when it was stored and is not owned by the route |
| SemanticRouter.RemoveRouteOverreaches | embedding-stores/langchain4j-community-redis/src/main/java/dev/langchain4j/community/store/routing/redis/RedisSemanticRouter.java:150 | removing route "a" under prefix "p" deletes the document of route "a:b"; the corrected removal keeps it |
| SemanticRouter.RemovedRouteNotRouted | embedding-stores/langchain4j-community-redis/src/main/java/dev/langchain4j/community/store/routing/redis/RedisSemanticRouter.java:144-165 | after `removeRoute` as written on a well-keyed store, routing over the documents still stored never returns the removed route |
| SemanticRouter.ExactRemovedRouteNotRouted | embedding-stores/langchain4j-community-redis/src/main/java/dev/langchain4j/community/store/routing/redis/RedisSemanticRouter.java:144-165 | the same for the corrected removal, which deletes only the route's own keys |
| SemanticCache.NewCache | embedding-stores/langchain4j-community-redis/src/main/java/dev/langchain4j/community/store/cache/redis/RedisSemanticCache.java:72-83 | null prefix and threshold take "semantic-cache" and `0.2f`; the ttl is kept; the index name extends the prefix |
| SemanticCache.DefaultThresholdAboveFifth | embedding-stores/langchain4j-community-redis/src/main/java/dev/langchain4j/community/store/cache/redis/RedisSemanticCache.java:78 | the widened default threshold lies strictly between 0.2 and 0.2 + 2^-26 |
| SemanticCache.BuildCache | embedding-stores/langchain4j-community-redis/src/main/java/dev/langchain4j/community/store/cache/redis/RedisSemanticCache.java:362-371 | a missing Redis client, then a missing embedding model, is rejected; otherwise the constructor's configuration |
| SemanticCache.Lookup | embedding-stores/langchain4j-community-redis/src/main/java/dev/langchain4j/community/store/cache/redis/RedisSemanticCache.java:92-124 | the lookup searches with the query built for its own scope and the prompt's embedding; no hit, or a best hit below the threshold, gives nothing; otherwise the best hit's decoded response; an undecodable response is "Failed to deserialize response from cache"; a failing search propagates |
| SemanticCache.LookupScoped | embedding-stores/langchain4j-community-redis/src/main/java/dev/langchain4j/community/store/cache/redis/RedisSemanticCache.java:98-122 | against a server that honours the scope filter, `lookup(prompt, llm)` returns only a response stored with scope `llm` |
| SemanticCache.LookupUsesBestOnly | embedding-stores/langchain4j-community-redis/src/main/java/dev/langchain4j/community/store/cache/redis/RedisSemanticCache.java:108-115 | two servers whose replies to the lookup's query share the best hit give the same answer, whatever hits follow |
| SemanticCache.EntryKey | embedding-stores/langchain4j-community-redis/src/main/java/dev/langchain4j/community/store/cache/redis/RedisSemanticCache.java:187-191 | the key `update` writes is `prefix:` followed by the hex MD5 of prompt, scope and time, with no further ':' |
| SemanticCache.Update | embedding-stores/langchain4j-community-redis/src/main/java/dev/langchain4j/community/store/cache/redis/RedisSemanticCache.java:133-160 | an unserializable response fails with "Failed to serialize data for caching"; otherwise one write of the entry under a key below `prefix:`, then an `EXPIRE` exactly when a ttl is set |
| SemanticCache.UpdateEffect | embedding-stores/langchain4j-community-redis/src/main/java/dev/langchain4j/community/store/cache/redis/RedisSemanticCache.java:133-160 | an update stores the entry under its key and leaves every other key as it was |
| SemanticCache.UpdateThenLookup | embedding-stores/langchain4j-community-redis/src/main/java/dev/langchain4j/community/store/cache/redis/RedisSemanticCache.java:92-160 | after an update, a lookup in the same scope whose best hit is the new entry at or above the threshold returns the stored response, and that entry sits under the update's key |
| SemanticCache.UpdatesCoexist | embedding-stores/langchain4j-community-redis/src/main/java/dev/langchain4j/community/store/cache/redis/RedisSemanticCache.java:187-191 | two updates of the same prompt and scope at different instants keep both entries, under different keys |

## Left out

- Index management (`ensureIndexExists`, `createIndex`): the schema and the index's existence are the server's business. Searches are parameters. `NewRouter` records the index name and the vector dimension; `NewCache` records only the index name, since the cache takes no dimension.
- The embedding model, MD5 and `System.currentTimeMillis` are parameters: `embed`, `md5` and `millis`. Properties that need distinct digests say so in their preconditions.
- The search engine itself:
  - k-NN ranking, cosine scores, and TAG-query matching of a name or scope stored in a TEXT field;
  - RediSearch's default page of 10 results for the unlimited `getRoute` query. Because of it, a route with more than ten references reads back truncated on a real server; `AddThenGet` assumes a complete reply.
- Negative `limit` and `maxResults`: both are `nat`. The source passes any `int` to the server, whose reply to a negative limit is not modelled.
- `close()`, connection handling and logging.
- Failures of the store commands (`JSON.SET`, `EXPIRE`, `SCAN`, `DEL`) and of the embedding call. In the source they propagate uncaught: a failure part-way through `addRoute`'s loop leaves the earlier references written, and one part-way through a SCAN/DEL loop leaves the earlier batches deleted. The model treats every write and every SCAN reply as succeeding; only the searches have a failure case (`SearchFailed`).
- Metadata stored as JSON `null`: Jackson reads it back as a null map, and `getRoute` then tries the next document. The model has no null map. A stored field is either the encoding of a map or text that does not parse.
- Parsing of `_score` and `threshold` strings with `Double.parseDouble`, including `NaN`. Scores are exact reals in the model.
- Glob metacharacters (`*`, `?`, `[`) in route names or prefixes: the SCAN pattern is taken to match exactly the keys that start with its literal stem.
- A null route name inside a non-null `Route`: it is treated like the empty name. `Route`'s own validation is not part of this model.
- Null `prompt` or `llmString` in the cache: Java would concatenate "null".
- The iteration order of `HashMap.values()` in `route`: the model keeps first-seen order before the stable sort. `RouteText` and `Aggregate` state only the ordering by score, so the order among equal scores is not specified.
- The order of names from the `HashSet` in `listRoutes`: `ListRoutes` states only which names appear and that each appears once.
- Key expiry after `EXPIRE`: the command is recorded, and the content stays until the server expires it.
- RouteAggregation.Qualifies: the rest of the model keeps the code's comparison (`score >= threshold`). The distance reading of the threshold appears only in `QualifiesWithin`, because which reading the authors intended is not settled by the source.
- SemanticRouter.RouteText: routing hits are the first `limit` documents of the reply. The server is trusted to return them in descending score order.
- SemanticRouter.RemoveRoute: the deleted keys are characterised relative to the SCAN replies. What SCAN returns for the pattern is stated through `ScanCovers`/`ScanMatches` rather than computed.

## Findings

| source | as written | input that shows it | evidently intended | confidence | as-written member | corrected member |
|---|---|---|---|---|---|---|
| embedding-stores/langchain4j-community-redis/src/main/java/dev/langchain4j/community/store/routing/redis/RedisSemanticRouter.java:150 | `removeRoute(name)` deletes every key matching `prefix:name:*`. That includes the keys `prefix:name:other:<hex>` of a route named `name:other`. | Prefix "p" with routes "a" and "a:b": `removeRoute("a")` also deletes `p:a:b:<hex>`, the document of route "a:b". | Delete only the keys of route `name`: `prefix:name:` followed by a digest with no ':'. | medium (route names containing ':' are accepted by `addRoute`); not executed | SemanticRouter.RemoveRoute, SemanticRouter.RemoveRouteOverreaches | SemanticRouter.RemoveRouteExact |
| embedding-stores/langchain4j-community-redis/src/main/java/dev/langchain4j/community/store/routing/redis/RedisSemanticRouter.java:213-215 | `route` skips a hit when `score < threshold`, so a higher threshold is harder to meet. The integration test at embedding-stores/langchain4j-community-redis/src/test/java/dev/langchain4j/community/store/routing/redis/RedisSemanticRouterIT.java:179-210 expects the opposite: route "easy_match" (threshold 0.9) matches while "hard_match" (threshold 0.1, the same reference, so the same score) does not. | Routes "easy_match" (0.9) and "hard_match" (0.1) with the reference "Example reference": any score that lets "easy_match" through lets "hard_match" through as well. | The threshold bounds a distance from above: a hit counts when its score is at most the threshold, as the name `distanceThreshold` suggests. | low (the code's comments say higher scores are more similar, so the test, not the code, may be what is wrong); not executed | RouteAggregation.QualifiesLowerAccepts, SemanticRouter.LooseRouteNeverAlone | RouteAggregation.WithinLooserAccepts |
