/** The public operations of the semantic router over the modelled store: adding,
    looking up, listing, removing and clearing routes, and routing a text. Every
    search reply, SCAN reply, embedding and digest is a parameter. */
module SemanticRouter {
  import opened Common
  import opened Hex
  import opened KeySpace
  import opened Store
  import opened RouterModel
  import opened RouteAggregation

  const RouteRequired: string := "Route cannot be null"
  const NameRequired: string := "Route name cannot be null or empty"
  const TextRequired: string := "Text cannot be null or empty"
  const SerializeError: string := "Failed to serialize route data"
  const RetrievalError: string := "Error retrieving route: "

  /** `listRoutes` asks for at most this many documents. */
  const ListLimit: nat := 10000

  // ---------------------------------------------------------------------------
  // What a search reply may contain, relative to the stored documents
  // ---------------------------------------------------------------------------

  /** Some stored document belongs to route `name`. */
  ghost predicate NamePresent(store: Store<RouteDoc>, name: string) {
    exists k :: k in store && store[k].name == name
  }

  /** Every document of the reply is a stored document of route `name`. */
  ghost predicate Sound(store: Store<RouteDoc>, name: string, docs: seq<RouteDoc>) {
    forall d :: d in docs ==> d in store.Values && d.name == name
  }

  /** The reply holds every stored document of route `name`. */
  ghost predicate Complete(store: Store<RouteDoc>, name: string, docs: seq<RouteDoc>) {
    forall d :: d in store.Values && d.name == name ==> d in docs
  }

  /** A reply to the name query: sound, and non-empty when the route has documents. */
  ghost predicate NameReply(store: Store<RouteDoc>, name: string, docs: seq<RouteDoc>) {
    Sound(store, name, docs) && (NamePresent(store, name) ==> |docs| > 0)
  }

  /** Every document sits under a key of its own route. */
  ghost predicate WellKeyed(prefix: string, store: Store<RouteDoc>) {
    forall k :: k in store ==> OwnsKey(prefix, store[k].name, k)
  }

  // ---------------------------------------------------------------------------
  // routeExists
  // ---------------------------------------------------------------------------

  /** `routeExists(name)`: a name query limited to one document; a failing search
      counts as "does not exist". */
  function RouteExists(name: Option<string>, reply: Search<RouteDoc>): (r: Result<bool>)
    ensures r.Err? <==> NullOrEmpty(name)
    ensures r.Err? ==> r.error == IllegalArgument(NameRequired)
    ensures r.Ok? ==> (r.value <==> reply.Hits? && |reply.docs| > 0)
  {
    if NullOrEmpty(name) then Err(IllegalArgument(NameRequired))
    else match reply
      case SearchFailed => Ok(false)
      case Hits(docs) => Ok(|docs| > 0)
  }

  /** Answered by the store, `routeExists` says whether the route has a document. */
  lemma RouteExistsAnswers(store: Store<RouteDoc>, name: string, docs: seq<RouteDoc>)
    requires |name| > 0 && NameReply(store, name, docs)
    ensures RouteExists(Some(name), Hits(docs)) == Ok(NamePresent(store, name))
  {
    if |docs| > 0 {
      assert docs[0] in docs;
      var k :| k in store && store[k] == docs[0];
    }
  }

  // ---------------------------------------------------------------------------
  // addRoute
  // ---------------------------------------------------------------------------

  /** What `addRoute` did: whether it added the route, and the writes it issued. */
  datatype AddOutcome = AddOutcome(added: bool, writes: seq<Command<RouteDoc>>)

  /** The document stored for one reference of `route`. */
  function ReferenceDoc(route: Route, reference: string, embed: string -> Vector): RouteDoc {
    RouteDoc(route.name, reference, embed(reference), route.threshold, Encoded(route.metadata))
  }

  /** One `JSON.SET` per reference, in order, each under the route's key for the reference. */
  function RouteWrites(prefix: string, route: Route, embed: string -> Vector, md5: string -> seq<JByte>)
    : (w: seq<Command<RouteDoc>>)
    ensures |w| == |route.references|
    ensures forall i :: 0 <= i < |w| ==>
      w[i] == JsonSet(RouterKey(prefix, route.name, md5(route.references[i])),
                      ReferenceDoc(route, route.references[i], embed))
  {
    seq(|route.references|, i requires 0 <= i < |route.references| =>
      JsonSet(RouterKey(prefix, route.name, md5(route.references[i])),
              ReferenceDoc(route, route.references[i], embed)))
  }

  /** `addRoute(route)`: a null route and an empty name are rejected; an existing route
      is left alone; otherwise every reference is written. Serialization can fail only
      on the metadata, and only once the loop runs. `existing` is the reply to the
      `routeExists` query. */
  function AddRoute(cfg: RouterConfig, route: Option<Route>, existing: Search<RouteDoc>,
                    embed: string -> Vector, md5: string -> seq<JByte>): (r: Result<AddOutcome>)
    ensures route.None? ==> r == Err(IllegalArgument(RouteRequired))
    ensures route.Some? && route.value.name == "" ==> r == Err(IllegalArgument(NameRequired))
    ensures route.Some? && route.value.name != "" ==>
      (r == Err(RoutingFailure(SerializeError)) <==>
         RouteExists(Some(route.value.name), existing) == Ok(false)
         && |route.value.references| > 0 && !MetadataSerializable(route.value.metadata))
    ensures (route.Some? && route.value.name != ""
             && !(RouteExists(Some(route.value.name), existing) == Ok(false)
                  && |route.value.references| > 0 && !MetadataSerializable(route.value.metadata)))
      ==> r.Ok?
    ensures r.Ok? ==> (r.value.added <==> RouteExists(Some(route.value.name), existing) == Ok(false))
    ensures r.Ok? && !r.value.added ==> r.value.writes == []
    ensures r.Ok? && r.value.added ==> r.value.writes == RouteWrites(cfg.prefix, route.value, embed, md5)
  {
    match route
    case None => Err(IllegalArgument(RouteRequired))
    case Some(rt) =>
      match RouteExists(Some(rt.name), existing)
      case Err(e) => Err(e)
      case Ok(true) => Ok(AddOutcome(false, []))
      case Ok(false) =>
        if |rt.references| > 0 && !MetadataSerializable(rt.metadata) then Err(RoutingFailure(SerializeError))
        else Ok(AddOutcome(true, RouteWrites(cfg.prefix, rt, embed, md5)))
  }

  /** `routeExists` swallows a failing search as "absent": `addRoute` then writes the
      route, even when it is already stored; a route without references is "added"
      with no write at all. */
  lemma AddAfterFailedCheck(cfg: RouterConfig, route: Route, embed: string -> Vector, md5: string -> seq<JByte>)
    requires route.name != ""
    requires |route.references| == 0 || MetadataSerializable(route.metadata)
    ensures AddRoute(cfg, Some(route), SearchFailed, embed, md5) ==
      Ok(AddOutcome(true, RouteWrites(cfg.prefix, route, embed, md5)))
    ensures |route.references| == 0 ==> AddRoute(cfg, Some(route), Hits([]), embed, md5) == Ok(AddOutcome(true, []))
  {
  }

  /** The document a write of `RouteWrites` left under the key of reference `x`. */
  lemma WrittenReference(prefix: string, route: Route, embed: string -> Vector, md5: string -> seq<JByte>,
                         store: Store<RouteDoc>, x: string)
    requires x in route.references
    requires forall r1, r2 :: r1 in route.references && r2 in route.references && md5(r1) == md5(r2) ==> r1 == r2
    ensures var after := Apply(store, RouteWrites(prefix, route, embed, md5));
      var key := RouterKey(prefix, route.name, md5(x));
      key in after && after[key] == ReferenceDoc(route, x, embed)
  {
    var w := RouteWrites(prefix, route, embed, md5);
    var after := Apply(store, w);
    var key := RouterKey(prefix, route.name, md5(x));
    var i :| 0 <= i < |route.references| && route.references[i] == x;
    assert w[i].JsonSet? && w[i].key == key;
    assert Written(w, key);
    var j :| LastWrite(w, key, j) && w[j].doc == after[key];
    assert RouterKey(prefix, route.name, md5(route.references[j])) == key;
    RouterKeyInjective(prefix, route.name, md5(route.references[j]), md5(x));
  }

  /** Every document of the route after the writes is one of them. */
  lemma WrittenDocs(prefix: string, route: Route, embed: string -> Vector, md5: string -> seq<JByte>,
                    store: Store<RouteDoc>, after: Store<RouteDoc>, k: string)
    requires !NamePresent(store, route.name)
    requires after == Apply(store, RouteWrites(prefix, route, embed, md5))
    requires k in after && after[k].name == route.name
    ensures exists x :: x in route.references && after[k] == ReferenceDoc(route, x, embed)
  {
    var w := RouteWrites(prefix, route, embed, md5);
    assert Written(w, k);
    var j :| 0 <= j < |w| && w[j] == JsonSet(k, after[k]);
    assert route.references[j] in route.references;
  }

  /** After adding a new route, a complete and sound name reply holds exactly the
      documents of the route's references. */
  lemma AddedReply(prefix: string, route: Route, embed: string -> Vector, md5: string -> seq<JByte>,
                   store: Store<RouteDoc>, docs: seq<RouteDoc>)
    requires !NamePresent(store, route.name)
    requires forall r1, r2 :: r1 in route.references && r2 in route.references && md5(r1) == md5(r2) ==> r1 == r2
    requires var after := Apply(store, RouteWrites(prefix, route, embed, md5));
      Sound(after, route.name, docs) && Complete(after, route.name, docs)
    ensures forall x :: x in route.references ==> ReferenceDoc(route, x, embed) in docs
    ensures forall d :: d in docs ==> exists x :: x in route.references && d == ReferenceDoc(route, x, embed)
  {
    var after := Apply(store, RouteWrites(prefix, route, embed, md5));
    forall x | x in route.references
      ensures ReferenceDoc(route, x, embed) in docs
    {
      WrittenReference(prefix, route, embed, md5, store, x);
    }
    forall d | d in docs
      ensures exists x :: x in route.references && d == ReferenceDoc(route, x, embed)
    {
      var k :| k in after && after[k] == d;
      WrittenDocs(prefix, route, embed, md5, store, after, k);
    }
  }

  /** `getRoute` over a reply made of exactly the documents of a route's references
      rebuilds the route's name, threshold, metadata and reference set. */
  lemma RebuiltRoute(route: Route, embed: string -> Vector, docs: seq<RouteDoc>)
    requires route.name != "" && |route.references| > 0
    requires forall x :: x in route.references ==> ReferenceDoc(route, x, embed) in docs
    requires forall d :: d in docs ==> exists x :: x in route.references && d == ReferenceDoc(route, x, embed)
    ensures var got := GetRoute(Some(route.name), Hits(docs));
      got.Ok? && got.value.Some?
      && got.value.value.name == route.name
      && got.value.value.threshold == route.threshold
      && got.value.value.metadata == route.metadata
      && (forall x :: x in got.value.value.references <==> x in route.references)
  {
    assert ReferenceDoc(route, route.references[0], embed) in docs;
    var got := GetRoute(Some(route.name), Hits(docs)).value.value;
    assert docs[0] in docs && docs[|docs| - 1] in docs;
    forall x | x in got.references
      ensures x in route.references
    {
      var i :| 0 <= i < |got.references| && got.references[i] == x;
      assert docs[i] in docs;
    }
    forall x | x in route.references
      ensures x in got.references
    {
      var i :| 0 <= i < |docs| && docs[i] == ReferenceDoc(route, x, embed);
      assert got.references[i] == x;
    }
  }

  /** Adding a new route and reading it back: `getRoute` rebuilds the same name,
      references (as a set, in the reply's order), threshold and metadata. */
  lemma AddThenGet(cfg: RouterConfig, route: Route, embed: string -> Vector, md5: string -> seq<JByte>,
                   store: Store<RouteDoc>, docs: seq<RouteDoc>)
    requires route.name != "" && |route.references| > 0 && MetadataSerializable(route.metadata)
    requires !NamePresent(store, route.name)
    requires forall r1, r2 :: r1 in route.references && r2 in route.references && md5(r1) == md5(r2) ==> r1 == r2
    requires var after := Apply(store, RouteWrites(cfg.prefix, route, embed, md5));
      Sound(after, route.name, docs) && Complete(after, route.name, docs)
    ensures AddRoute(cfg, Some(route), Hits([]), embed, md5) == Ok(AddOutcome(true, RouteWrites(cfg.prefix, route, embed, md5)))
    ensures var got := GetRoute(Some(route.name), Hits(docs));
      got.Ok? && got.value.Some?
      && got.value.value.name == route.name
      && got.value.value.threshold == route.threshold
      && got.value.value.metadata == route.metadata
      && (forall x :: x in got.value.value.references <==> x in route.references)
  {
    AddedReply(cfg.prefix, route, embed, md5, store, docs);
    RebuiltRoute(route, embed, docs);
  }

  /** Once a route with references is stored, adding it again writes nothing. */
  lemma AddTwiceNoop(cfg: RouterConfig, route: Route, embed: string -> Vector, md5: string -> seq<JByte>,
                     store: Store<RouteDoc>, docs: seq<RouteDoc>)
    requires route.name != "" && |route.references| > 0
    requires forall r1, r2 :: r1 in route.references && r2 in route.references && md5(r1) == md5(r2) ==> r1 == r2
    requires NameReply(Apply(store, RouteWrites(cfg.prefix, route, embed, md5)), route.name, docs)
    ensures AddRoute(cfg, Some(route), Hits(docs), embed, md5) == Ok(AddOutcome(false, []))
  {
    var after := Apply(store, RouteWrites(cfg.prefix, route, embed, md5));
    var x := route.references[0];
    WrittenReference(cfg.prefix, route, embed, md5, store, x);
    assert NamePresent(after, route.name) by {
      var key := RouterKey(cfg.prefix, route.name, md5(x));
      assert key in after && after[key].name == route.name;
    }
  }

  /** Adding a route keeps every document under a key of its own route. */
  lemma AddKeepsWellKeyed(cfg: RouterConfig, route: Route, embed: string -> Vector, md5: string -> seq<JByte>,
                          store: Store<RouteDoc>)
    requires WellKeyed(cfg.prefix, store)
    ensures WellKeyed(cfg.prefix, Apply(store, RouteWrites(cfg.prefix, route, embed, md5)))
  {
    var w := RouteWrites(cfg.prefix, route, embed, md5);
    var after := Apply(store, w);
    forall k | k in after
      ensures OwnsKey(cfg.prefix, after[k].name, k)
    {
      if Written(w, k) {
        var j :| 0 <= j < |w| && w[j] == JsonSet(k, after[k]);
        RouterKeyOwned(cfg.prefix, route.name, md5(route.references[j]));
      }
    }
  }

  // ---------------------------------------------------------------------------
  // route
  // ---------------------------------------------------------------------------

  /** `route(text, limit)`: reject an empty text, run the k-NN search (whose failure
      propagates), and aggregate the first `limit` hits. */
  function RouteText(text: Option<string>, limit: nat, reply: Search<RouteHit>): (r: Result<seq<RouteMatch>>)
    ensures r == Err(IllegalArgument(TextRequired)) <==> NullOrEmpty(text)
    ensures !NullOrEmpty(text) && reply.SearchFailed? ==> r == Err(StoreFailure)
    ensures !NullOrEmpty(text) && reply.Hits? ==>
      var hits := Take(reply.docs, limit);
      && (r.Ok? <==> !Garbles(hits, |hits|))
      && (r.Err? ==> r.error == RoutingFailure(MetadataError))
      && (r.Ok? ==> RoutesFrom(hits, r.value) && |r.value| <= limit)
  {
    if NullOrEmpty(text) then Err(IllegalArgument(TextRequired))
    else match reply
      case SearchFailed => Err(StoreFailure)
      case Hits(docs) =>
        var hits := Take(docs, limit);
        if |hits| == 0 then Ok([])
        else
          var r := Aggregate(hits);
          if r.Ok? then
            MatchesBounded(hits, r.value);
            r
          else r
  }

  /** `route(text)`: the configured `maxResults` as the limit. */
  function RouteDefault(cfg: RouterConfig, text: Option<string>, reply: Search<RouteHit>): (r: Result<seq<RouteMatch>>)
    ensures r.Ok? ==> |r.value| <= cfg.maxResults
    ensures r == RouteText(text, cfg.maxResults, reply)
  {
    RouteText(text, cfg.maxResults, reply)
  }

  /** The route names of the first `n` hits. */
  function HitNames(hits: seq<RouteHit>, n: nat): (names: set<string>)
    requires n <= |hits|
    ensures |names| <= n
    ensures forall i :: 0 <= i < n ==> hits[i].doc.name in names
    ensures forall x :: x in names ==> exists i :: 0 <= i < n && hits[i].doc.name == x
  {
    if n == 0 then {} else HitNames(hits, n - 1) + {hits[n - 1].doc.name}
  }

  /** Distinct names drawn from `names` number at most |names|. */
  lemma {:induction false} DistinctWithin(ms: seq<RouteMatch>, names: set<string>)
    requires NamesDistinct(ms)
    requires forall m :: m in ms ==> m.routeName in names
    ensures |ms| <= |names|
  {
    if |ms| > 0 {
      var last := ms[|ms| - 1];
      var front := ms[..|ms| - 1];
      assert forall m :: m in front ==> m in ms && m.routeName != last.routeName by {
        forall m | m in front
          ensures m in ms && m.routeName != last.routeName
        {
          var a :| 0 <= a < |front| && front[a] == m;
          assert ms[a] == m;
        }
      }
      assert last in ms;
      DistinctWithin(front, names - {last.routeName});
    }
  }

  /** A correct answer has at most one match per hit. */
  lemma MatchesBounded(hits: seq<RouteHit>, ms: seq<RouteMatch>)
    requires RoutesFrom(hits, ms)
    ensures |ms| <= |hits|
  {
    var names := HitNames(hits, |hits|);
    forall m | m in ms
      ensures m.routeName in names
    {
      var i :| Winner(hits, |hits|, i, m);
    }
    DistinctWithin(ms, names);
  }

  /** A qualifying hit puts its route in the answer, with at least the hit's score
      (and so at least the route's threshold). */
  lemma QualifyingHitRouted(hits: seq<RouteHit>, i: nat)
    requires i < |hits| && Qualifies(hits[i])
    requires Aggregate(hits).Ok?
    ensures exists m :: (m in Aggregate(hits).value && m.routeName == hits[i].doc.name &&
      m.score >= hits[i].score && m.score >= hits[i].doc.threshold)
  {
    var ms := Aggregate(hits).value;
    var m :| m in ms && m.routeName == hits[i].doc.name;
    var j :| Winner(hits, |hits|, j, m);
  }

  /** A route with no document among the hits is not in the answer. */
  lemma AbsentRouteNotRouted(hits: seq<RouteHit>, name: string)
    requires forall i :: 0 <= i < |hits| ==> hits[i].doc.name != name
    requires Aggregate(hits).Ok?
    ensures forall m :: m in Aggregate(hits).value ==> m.routeName != name
  {
    forall m | m in Aggregate(hits).value
      ensures m.routeName != name
    {
      var j :| Winner(hits, |hits|, j, m);
    }
  }

  /** `hits2` is `hits1` with some thresholds raised. */
  predicate Raised(hits1: seq<RouteHit>, hits2: seq<RouteHit>) {
    && |hits1| == |hits2|
    && forall i :: 0 <= i < |hits1| ==>
         && hits2[i].score == hits1[i].score
         && hits2[i].doc == hits1[i].doc.(threshold := hits2[i].doc.threshold)
         && hits2[i].doc.threshold >= hits1[i].doc.threshold
  }

  /** Raising thresholds makes routing more selective: whatever still matches matched
      before, with at least the same score, and no new metadata failure appears. */
  lemma RaisedThresholdSelective(hits1: seq<RouteHit>, hits2: seq<RouteHit>)
    requires Raised(hits1, hits2)
    ensures Aggregate(hits1).Ok? ==> Aggregate(hits2).Ok?
    ensures Aggregate(hits1).Ok? ==> forall m :: m in Aggregate(hits2).value ==>
      exists m1 :: m1 in Aggregate(hits1).value && m1.routeName == m.routeName && m1.score >= m.score
  {
    if Aggregate(hits1).Ok? {
      forall i | 0 <= i < |hits2| && Qualifies(hits2[i])
        ensures !hits2[i].doc.metadata.Garbled?
      {
        assert Qualifies(hits1[i]);
      }
      var r1 := Aggregate(hits1).value;
      forall m | m in Aggregate(hits2).value
        ensures exists m1 :: m1 in r1 && m1.routeName == m.routeName && m1.score >= m.score
      {
        var i :| Winner(hits2, |hits2|, i, m);
        assert Qualifies(hits1[i]);
        var m1 :| m1 in r1 && m1.routeName == hits1[i].doc.name;
        var j :| Winner(hits1, |hits1|, j, m1);
      }
    }
  }

  /** Two routes with the same single reference score alike on every query. As written,
      the one with threshold 0.9 is never routed without the one with threshold 0.1:
      a reply that routes to "easy_match" (0.9) also routes to "hard_match" (0.1). */
  lemma LooseRouteNeverAlone(hits: seq<RouteHit>, b: nat)
    requires b < |hits| && hits[b].doc.name == "hard_match" && hits[b].doc.threshold == 0.1
    requires forall i :: 0 <= i < |hits| && hits[i].doc.name == "easy_match" ==>
      hits[i].doc.threshold == 0.9 && hits[i].score == hits[b].score
    ensures Aggregate(hits).Ok? && (exists m :: m in Aggregate(hits).value && m.routeName == "easy_match") ==>
      exists m :: m in Aggregate(hits).value && m.routeName == "hard_match"
  {
    if Aggregate(hits).Ok? && (exists m :: m in Aggregate(hits).value && m.routeName == "easy_match") {
      var ms := Aggregate(hits).value;
      var m :| m in ms && m.routeName == "easy_match";
      var i :| Winner(hits, |hits|, i, m);
      QualifiesLowerAccepts(hits[i], hits[b]);
      assert Qualifies(hits[b]);
    }
  }

  // ---------------------------------------------------------------------------
  // listRoutes and getRoute
  // ---------------------------------------------------------------------------

  /** Collecting into a set: each name once, first occurrence first. */
  function Dedup(xs: seq<string>): (r: seq<string>)
    ensures forall x :: x in r <==> x in xs
    ensures forall a, b :: 0 <= a < b < |r| ==> r[a] != r[b]
  {
    if |xs| == 0 then []
    else
      var front := xs[..|xs| - 1];
      var rest := Dedup(front);
      var x := xs[|xs| - 1];
      assert xs == front + [x];
      if x in rest then rest else rest + [x]
  }

  /** `listRoutes()`: the distinct route names of the first 10000 documents; a
      failing search yields no names. */
  function ListRoutes(reply: Search<RouteDoc>): (names: seq<string>)
    ensures reply.SearchFailed? ==> names == []
    ensures reply.Hits? ==> forall x :: x in names <==>
      exists i :: 0 <= i < |reply.docs| && i < ListLimit && reply.docs[i].name == x
    ensures forall a, b :: 0 <= a < b < |names| ==> names[a] != names[b]
  {
    match reply
    case SearchFailed => []
    case Hits(docs) =>
      var page := Take(docs, ListLimit);
      var names := seq(|page|, i requires 0 <= i < |page| => page[i].name);
      assert forall x :: x in names <==> exists i :: 0 <= i < |docs| && i < ListLimit && docs[i].name == x by {
        forall x
          ensures x in names <==> exists i :: 0 <= i < |docs| && i < ListLimit && docs[i].name == x
        {
          if x in names {
            var i :| 0 <= i < |names| && names[i] == x;
            assert docs[i].name == x;
          }
          if exists i :: 0 <= i < |docs| && i < ListLimit && docs[i].name == x {
            var i :| 0 <= i < |docs| && i < ListLimit && docs[i].name == x;
            assert names[i] == x;
          }
        }
      }
      Dedup(names)
  }

  /** Answered with every stored document (at most 10000), `listRoutes` names exactly
      the routes that have a document. */
  lemma ListRoutesAnswers(store: Store<RouteDoc>, docs: seq<RouteDoc>)
    requires |docs| <= ListLimit
    requires forall d :: d in docs <==> d in store.Values
    ensures forall x :: x in ListRoutes(Hits(docs)) <==> NamePresent(store, x)
  {
    forall x
      ensures x in ListRoutes(Hits(docs)) <==> NamePresent(store, x)
    {
      if NamePresent(store, x) {
        var k :| k in store && store[k].name == x;
        assert store[k] in store.Values;
        var i :| 0 <= i < |docs| && docs[i] == store[k];
      }
      if x in ListRoutes(Hits(docs)) {
        var i :| 0 <= i < |docs| && i < ListLimit && docs[i].name == x;
        assert docs[i] in docs;
        var k :| k in store && store[k] == docs[i];
      }
    }
  }

  /** The metadata `getRoute` reports for a stored field: the decoded map, or an empty
      map when it does not decode. */
  function MetadataOf(field: Json<Metadata>): Metadata {
    match field
    case Encoded(m) => m
    case Garbled => map[]
  }

  /** `getRoute(name)`: a name query; no documents means no route. The route is rebuilt
      from the reply: every document's reference in order, the threshold of the last
      document, and the metadata of the first. A failing search is reported as a
      routing failure naming the route. */
  function GetRoute(name: Option<string>, reply: Search<RouteDoc>): (r: Result<Option<Route>>)
    ensures NullOrEmpty(name) <==> r == Err(IllegalArgument(NameRequired))
    ensures !NullOrEmpty(name) && reply.SearchFailed? ==> r == Err(RoutingFailure(RetrievalError + name.value))
    ensures !NullOrEmpty(name) && reply.Hits? ==> r.Ok? && (r.value.None? <==> |reply.docs| == 0)
    ensures r.Ok? && r.value.Some? ==>
      var got := r.value.value;
      && got.name == name.value
      && |got.references| == |reply.docs|
      && (forall i :: 0 <= i < |got.references| ==> got.references[i] == reply.docs[i].reference)
      && got.threshold == reply.docs[|reply.docs| - 1].threshold
      && got.metadata == MetadataOf(reply.docs[0].metadata)
  {
    if NullOrEmpty(name) then Err(IllegalArgument(NameRequired))
    else match reply
      case SearchFailed => Err(RoutingFailure(RetrievalError + name.value))
      case Hits(docs) =>
        if |docs| == 0 then Ok(None)
        else
          var refs := seq(|docs|, i requires 0 <= i < |docs| => docs[i].reference);
          Ok(Some(Route(name.value, refs, docs[|docs| - 1].threshold, MetadataOf(docs[0].metadata))))
  }

  // ---------------------------------------------------------------------------
  // removeRoute and clear
  // ---------------------------------------------------------------------------

  /** What a SCAN/DEL sweep did: the store afterwards, and whether any key was deleted. */
  datatype Removal = Removal(after: Store<RouteDoc>, removed: bool)

  /** `removeRoute(name)` as written: SCAN for `prefix:name:*` and delete every key
      returned. That pattern also covers the keys of a route named `name:<more>`. */
  method RemoveRoute(cfg: RouterConfig, name: Option<string>, store: Store<RouteDoc>, pages: seq<ScanPage>)
    returns (r: Result<Removal>)
    requires !NullOrEmpty(name) ==> Terminates(pages)
    ensures NullOrEmpty(name) <==> r == Err(IllegalArgument(NameRequired))
    ensures !NullOrEmpty(name) ==> r.Ok?
    ensures r.Ok? ==> r.value.after == store - Swept(pages, ScanLength(pages), AnyKey)
    ensures r.Ok? ==> (r.value.removed <==> AnyPicked(pages, ScanLength(pages), AnyKey))
    ensures r.Ok? && ScanCovers(store, pages, RouteStem(cfg.prefix, name.value)) ==>
      forall k :: k in r.value.after ==> !OwnsKey(cfg.prefix, name.value, k)
    ensures r.Ok? && ScanMatches(pages, RouteStem(cfg.prefix, name.value)) ==>
      forall k :: k in store && !HasPrefix(k, RouteStem(cfg.prefix, name.value)) ==> k in r.value.after
  {
    if NullOrEmpty(name) {
      return Err(IllegalArgument(NameRequired));
    }
    var after, removed, scans := ScanDelete(store, pages, AnyKey);
    SweepAll(store, pages, RouteStem(cfg.prefix, name.value));
    return Ok(Removal(after, removed));
  }

  /** The keys of route `name`, and no others. */
  function OwnedBy(prefix: string, name: string): string -> bool {
    k => OwnsKey(prefix, name, k)
  }

  /** `removeRoute(name)` deleting only what the route owns: the same SCAN, keeping of
      each batch only the keys whose remainder after `prefix:name:` holds no ':'. */
  method RemoveRouteExact(cfg: RouterConfig, name: Option<string>, store: Store<RouteDoc>, pages: seq<ScanPage>)
    returns (r: Result<Removal>)
    requires !NullOrEmpty(name) ==> Terminates(pages)
    ensures NullOrEmpty(name) <==> r == Err(IllegalArgument(NameRequired))
    ensures !NullOrEmpty(name) ==> r.Ok?
    ensures r.Ok? ==> r.value.after == store - Swept(pages, ScanLength(pages), OwnedBy(cfg.prefix, name.value))
    ensures r.Ok? ==> (r.value.removed <==> AnyPicked(pages, ScanLength(pages), OwnedBy(cfg.prefix, name.value)))
    ensures r.Ok? && ScanCovers(store, pages, RouteStem(cfg.prefix, name.value)) ==>
      forall k :: k in r.value.after <==> k in store && !OwnsKey(cfg.prefix, name.value, k)
  {
    if NullOrEmpty(name) {
      return Err(IllegalArgument(NameRequired));
    }
    var after, removed, scans := ScanDelete(store, pages, OwnedBy(cfg.prefix, name.value));
    SweepExact(cfg.prefix, name.value, store, pages);
    return Ok(Removal(after, removed));
  }

  /** A complete SCAN swept with `OwnedBy` removes exactly the route's keys. */
  lemma SweepExact(prefix: string, name: string, store: Store<RouteDoc>, pages: seq<ScanPage>)
    requires Terminates(pages)
    ensures ScanCovers(store, pages, RouteStem(prefix, name)) ==>
      forall k :: k in store - Swept(pages, ScanLength(pages), OwnedBy(prefix, name)) <==>
        k in store && !OwnsKey(prefix, name, k)
  {
    var n := ScanLength(pages);
    var sel := OwnedBy(prefix, name);
    if ScanCovers(store, pages, RouteStem(prefix, name)) {
      forall k
        ensures k in store - Swept(pages, n, sel) <==> k in store && !OwnsKey(prefix, name, k)
      {
        SweptMembers(pages, n, sel, k);
      }
    }
  }

  /** The finding: removing route "a" under prefix "p" also deletes the document of
      route "a:b", whose key `p:a:b:<hex>` matches the pattern `p:a:*`. The exact sweep
      keeps it. */
  lemma RemoveRouteOverreaches(digest: seq<JByte>, doc: RouteDoc, pages: seq<ScanPage>)
    requires Terminates(pages)
    requires ScanCovers(map[RouterKey("p", "a:b", digest) := doc], pages, RouteStem("p", "a"))
    ensures var key := RouterKey("p", "a:b", digest);
      && OwnsKey("p", "a:b", key) && !OwnsKey("p", "a", key)
      && key !in map[key := doc] - Swept(pages, ScanLength(pages), AnyKey)
      && key in map[key := doc] - Swept(pages, ScanLength(pages), OwnedBy("p", "a"))
  {
    var key := RouterKey("p", "a:b", digest);
    RouterKeyOwned("p", "a:b", digest);
    assert "a:b" == "a" + ":" + "b";
    NestedRouteKey("p", "a", "b", digest);
    SweptMembers(pages, ScanLength(pages), AnyKey, key);
    SweptMembers(pages, ScanLength(pages), OwnedBy("p", "a"), key);
  }

  /** After the owner-only removal of a route from a well-keyed store, routing over
      documents still stored never returns it. */
  lemma ExactRemovedRouteNotRouted(prefix: string, name: string, store: Store<RouteDoc>, pages: seq<ScanPage>,
                              text: Option<string>, limit: nat, hits: seq<RouteHit>)
    requires Terminates(pages) && WellKeyed(prefix, store)
    requires ScanCovers(store, pages, RouteStem(prefix, name))
    requires forall i :: 0 <= i < |hits| ==>
      hits[i].doc in (store - Swept(pages, ScanLength(pages), OwnedBy(prefix, name))).Values
    ensures RouteText(text, limit, Hits(hits)).Ok? ==>
      forall m :: m in RouteText(text, limit, Hits(hits)).value ==> m.routeName != name
  {
    var after := store - Swept(pages, ScanLength(pages), OwnedBy(prefix, name));
    SweepExact(prefix, name, store, pages);
    var taken := Take(hits, limit);
    forall i | 0 <= i < |taken|
      ensures taken[i].doc.name != name
    {
      assert taken[i] == hits[i];
      assert hits[i].doc in after.Values;
      var k :| k in after && after[k] == hits[i].doc;
    }
    if RouteText(text, limit, Hits(hits)).Ok? && |taken| > 0 {
      AbsentRouteNotRouted(taken, name);
    }
  }

  /** After `removeRoute` as written (delete every key the SCAN returned) on a
      well-keyed store, routing over documents still stored never returns the route:
      whatever the as-written sweep keeps, the owner-only sweep keeps too. */
  lemma RemovedRouteNotRouted(prefix: string, name: string, store: Store<RouteDoc>, pages: seq<ScanPage>,
                              text: Option<string>, limit: nat, hits: seq<RouteHit>)
    requires Terminates(pages) && WellKeyed(prefix, store)
    requires ScanCovers(store, pages, RouteStem(prefix, name))
    requires forall i :: 0 <= i < |hits| ==>
      hits[i].doc in (store - Swept(pages, ScanLength(pages), AnyKey)).Values
    ensures RouteText(text, limit, Hits(hits)).Ok? ==>
      forall m :: m in RouteText(text, limit, Hits(hits)).value ==> m.routeName != name
  {
    var n := ScanLength(pages);
    var kept := store - Swept(pages, n, AnyKey);
    var exact := store - Swept(pages, n, OwnedBy(prefix, name));
    forall i | 0 <= i < |hits|
      ensures hits[i].doc in exact.Values
    {
      assert hits[i].doc in kept.Values;
      var k :| k in kept && kept[k] == hits[i].doc;
      SweptMembers(pages, n, AnyKey, k);
      SweptMembers(pages, n, OwnedBy(prefix, name), k);
      assert k in exact && exact[k] == hits[i].doc;
    }
    ExactRemovedRouteNotRouted(prefix, name, store, pages, text, limit, hits);
  }
}
