/** The router's entities: the route a caller configures, the JSON document stored
    per reference, a scored search hit, and the match `route` returns. */
module RouterModel {
  import opened Common
  import opened KeySpace

  /** A named destination: reference utterances, the minimum similarity score a
      query needs (`distanceThreshold`), and metadata copied onto every reference. */
  datatype Route = Route(name: string, references: seq<string>, threshold: real, metadata: Metadata)

  /** The JSON document stored for one reference of a route. */
  datatype RouteDoc = RouteDoc(
    name: string,
    reference: string,
    vector: Vector,
    threshold: real,
    metadata: Json<Metadata>)

  /** A document returned by the k-NN search with its `_score` (higher is more similar). */
  datatype RouteHit = RouteHit(doc: RouteDoc, score: real)

  /** One entry of `route`'s answer: the route, its best score, the winning document's metadata. */
  datatype RouteMatch = RouteMatch(routeName: string, score: real, metadata: Metadata)

  /** The router's configuration after construction. */
  datatype RouterConfig = RouterConfig(prefix: string, indexName: string, maxResults: nat, dimension: nat)

  const DefaultRouterPrefix: string := "semantic-router"
  const DefaultMaxResults: nat := 5
  /** The vector dimension the index is created with. */
  const DefaultDimension: nat := 1536

  /** The constructor: a null prefix or maxResults takes its default, and the index
      name always follows the prefix. */
  function NewRouter(prefix: Option<string>, maxResults: Option<nat>): (c: RouterConfig)
    ensures c.prefix == (if prefix.Some? then prefix.value else DefaultRouterPrefix)
    ensures c.maxResults == (if maxResults.Some? then maxResults.value else DefaultMaxResults)
    ensures c.indexName == IndexName(c.prefix) && HasPrefix(c.indexName, c.prefix)
    ensures c.dimension == DefaultDimension
  {
    var p := if prefix.Some? then prefix.value else DefaultRouterPrefix;
    RouterConfig(p, p + "-index", if maxResults.Some? then maxResults.value else DefaultMaxResults, DefaultDimension)
  }

  /** `Builder.build()`: the Redis client and the embedding model are required; the
      builder starts from the same defaults as the constructor. */
  function BuildRouter(hasRedis: bool, hasEmbeddingModel: bool, prefix: Option<string>, maxResults: Option<nat>)
    : (r: Result<RouterConfig>)
    ensures !hasRedis ==> r == Err(IllegalArgument("Redis client is required"))
    ensures hasRedis && !hasEmbeddingModel ==> r == Err(IllegalArgument("Embedding model is required"))
    ensures hasRedis && hasEmbeddingModel ==> r == Ok(NewRouter(prefix, maxResults))
  {
    if !hasRedis then Err(IllegalArgument("Redis client is required"))
    else if !hasEmbeddingModel then Err(IllegalArgument("Embedding model is required"))
    else Ok(NewRouter(prefix, maxResults))
  }
}
