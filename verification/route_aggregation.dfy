/** The heart of `route`: fold the scored hits into one match per route (the best
    qualifying score, first-seen on ties) and sort the matches by descending score. */
module RouteAggregation {
  import opened Common
  import opened RouterModel

  const MetadataError: string := "Failed to deserialize metadata"

  /** A hit counts when its score reaches the threshold stored on its own document. */
  predicate Qualifies(h: RouteHit) {
    h.score >= h.doc.threshold
  }

  /** The other reading of a route's threshold: an upper bound on the distance, so a hit
      counts when its score is at most the threshold. */
  predicate QualifiesWithin(h: RouteHit) {
    h.score <= h.doc.threshold
  }

  /** Under the distance reading, a route with a larger threshold accepts every score a
      route with a smaller one accepts, and between the two thresholds it alone does. */
  lemma WithinLooserAccepts(loose: RouteHit, strict: RouteHit)
    requires loose.score == strict.score && strict.doc.threshold <= loose.doc.threshold
    ensures QualifiesWithin(strict) ==> QualifiesWithin(loose)
    ensures strict.doc.threshold < loose.score <= loose.doc.threshold ==>
      QualifiesWithin(loose) && !QualifiesWithin(strict)
  {
  }

  /** As written, the comparison runs the other way: a route with a smaller threshold
      accepts every score a route with a larger one accepts. */
  lemma QualifiesLowerAccepts(high: RouteHit, low: RouteHit)
    requires high.score == low.score && low.doc.threshold <= high.doc.threshold
    ensures Qualifies(high) ==> Qualifies(low)
  {
  }

  predicate NamesDistinct(ms: seq<RouteMatch>) {
    forall a, b :: 0 <= a < b < |ms| ==> ms[a].routeName != ms[b].routeName
  }

  /** The map lookup `routeMatches.get(routeName)`: where `name` sits, or -1. */
  function IndexOfRoute(acc: seq<RouteMatch>, name: string): (k: int)
    ensures -1 <= k < |acc|
    ensures 0 <= k ==> acc[k].routeName == name
    ensures k < 0 ==> forall a :: 0 <= a < |acc| ==> acc[a].routeName != name
  {
    if |acc| == 0 then -1
    else if acc[|acc| - 1].routeName == name then |acc| - 1
    else IndexOfRoute(acc[..|acc| - 1], name)
  }

  /** One pass of the loop over the documents. A hit below its threshold is skipped;
      otherwise its metadata is parsed (a parse failure aborts), and it seeds its
      route's entry or replaces it when its score is strictly greater. */
  function Step(acc: seq<RouteMatch>, h: RouteHit): (r: Result<seq<RouteMatch>>)
    ensures r.Err? <==> Qualifies(h) && h.doc.metadata.Garbled?
    ensures r.Err? ==> r.error == RoutingFailure(MetadataError)
    ensures r.Ok? && !Qualifies(h) ==> r.value == acc
    ensures r.Ok? ==> |acc| <= |r.value| <= |acc| + 1
    ensures r.Ok? ==> forall name :: Listed(r.value, name) <==> Listed(acc, name) || (Qualifies(h) && name == h.doc.name)
  {
    if h.score < h.doc.threshold then Ok(acc)
    else match h.doc.metadata
      case Garbled => Err(RoutingFailure(MetadataError))
      case Encoded(meta) =>
        var k := IndexOfRoute(acc, h.doc.name);
        var m := RouteMatch(h.doc.name, h.score, meta);
        if k < 0 then
          ListedAppend(acc, m);
          Ok(acc + [m])
        else if h.score > acc[k].score then
          ListedReplace(acc, k, m);
          assert Listed(acc, h.doc.name) by { assert acc[k].routeName == h.doc.name; }
          Ok(acc[k := m])
        else
          assert Listed(acc, h.doc.name) by { assert acc[k].routeName == h.doc.name; }
          Ok(acc)
  }

  /** Appending an entry lists its route in addition to the others. */
  lemma ListedAppend(acc: seq<RouteMatch>, m: RouteMatch)
    ensures forall name :: Listed(acc + [m], name) <==> Listed(acc, name) || name == m.routeName
  {
    forall name | Listed(acc, name)
      ensures Listed(acc + [m], name)
    {
      var a :| 0 <= a < |acc| && acc[a].routeName == name;
      assert (acc + [m])[a] == acc[a];
    }
    assert (acc + [m])[|acc|] == m;
  }

  /** Replacing an entry by one of the same route lists the same routes. */
  lemma ListedReplace(acc: seq<RouteMatch>, k: nat, m: RouteMatch)
    requires k < |acc| && acc[k].routeName == m.routeName
    ensures forall name :: Listed(acc[k := m], name) <==> Listed(acc, name)
  {
    forall name | Listed(acc, name)
      ensures Listed(acc[k := m], name)
    {
      var a :| 0 <= a < |acc| && acc[a].routeName == name;
      assert acc[k := m][a].routeName == name;
    }
    forall name | Listed(acc[k := m], name)
      ensures Listed(acc, name)
    {
      var a :| 0 <= a < |acc| && acc[k := m][a].routeName == name;
      assert acc[a].routeName == name;
    }
  }

  /** The loop over the first `n` hits, in search order. */
  function Fold(hits: seq<RouteHit>, n: nat): (r: Result<seq<RouteMatch>>)
    requires n <= |hits|
    ensures r.Err? ==> r.error == RoutingFailure(MetadataError)
    ensures r.Ok? ==> |r.value| <= n
  {
    if n == 0 then Ok([])
    else match Fold(hits, n - 1)
      case Err(e) => Err(e)
      case Ok(acc) => Step(acc, hits[n - 1])
  }

  /** Hit `i` (of the first `n`) is the one match `m` reports: it qualifies, carries
      m's route, score and metadata, no qualifying hit of that route scores higher,
      and every earlier qualifying hit of that route scores strictly lower. */
  ghost predicate Winner(hits: seq<RouteHit>, n: nat, i: int, m: RouteMatch)
    requires n <= |hits|
  {
    && 0 <= i < n
    && Qualifies(hits[i])
    && hits[i].doc.name == m.routeName
    && hits[i].score == m.score
    && hits[i].doc.metadata == Encoded(m.metadata)
    && (forall j :: 0 <= j < n && Qualifies(hits[j]) && hits[j].doc.name == m.routeName ==> hits[j].score <= m.score)
    && (forall j :: 0 <= j < i && Qualifies(hits[j]) && hits[j].doc.name == m.routeName ==> hits[j].score < m.score)
  }

  /** `acc` is the aggregation of the first `n` hits: one entry per route, each backed
      by its winning hit, and every route with a qualifying hit present. */
  ghost predicate Aggregates(hits: seq<RouteHit>, n: nat, acc: seq<RouteMatch>)
    requires n <= |hits|
  {
    && NamesDistinct(acc)
    && (forall a :: 0 <= a < |acc| ==> Backed(hits, n, acc[a]))
    && (forall name :: QualifyingRoute(hits, n, name) ==> Listed(acc, name))
  }

  /** Some hit among the first `n` is the winner behind `m`. */
  ghost predicate Backed(hits: seq<RouteHit>, n: nat, m: RouteMatch)
    requires n <= |hits|
  {
    exists i :: Winner(hits, n, i, m)
  }

  /** Some hit of route `name` among the first `n` qualifies. */
  ghost predicate QualifyingRoute(hits: seq<RouteHit>, n: nat, name: string)
    requires n <= |hits|
  {
    exists i :: 0 <= i < n && Qualifies(hits[i]) && hits[i].doc.name == name
  }

  /** `acc` has an entry for route `name`. */
  ghost predicate Listed(acc: seq<RouteMatch>, name: string) {
    exists a :: 0 <= a < |acc| && acc[a].routeName == name
  }

  /** Some qualifying hit among the first `n` has metadata that does not parse. */
  ghost predicate Garbles(hits: seq<RouteHit>, n: nat)
    requires n <= |hits|
  {
    exists i :: 0 <= i < n && Qualifies(hits[i]) && hits[i].doc.metadata.Garbled?
  }

  lemma WinnerExtends(hits: seq<RouteHit>, n: nat, i: int, m: RouteMatch)
    requires n < |hits| && Winner(hits, n, i, m)
    requires !(Qualifies(hits[n]) && hits[n].doc.name == m.routeName && hits[n].score > m.score)
    ensures Winner(hits, n + 1, i, m)
  {
  }

  /** A hit that does not beat `m` leaves m backed. */
  lemma BackedExtends(hits: seq<RouteHit>, n: nat, m: RouteMatch)
    requires n < |hits| && Backed(hits, n, m)
    requires !(Qualifies(hits[n]) && hits[n].doc.name == m.routeName && hits[n].score > m.score)
    ensures Backed(hits, n + 1, m)
  {
    var i :| Winner(hits, n, i, m);
    WinnerExtends(hits, n, i, m);
  }

  /** A hit below its threshold changes nothing. */
  lemma StepSkip(hits: seq<RouteHit>, n: nat, acc: seq<RouteMatch>)
    requires n < |hits| && Aggregates(hits, n, acc) && !Qualifies(hits[n])
    ensures Aggregates(hits, n + 1, acc)
  {
    forall a | 0 <= a < |acc|
      ensures Backed(hits, n + 1, acc[a])
    {
      BackedExtends(hits, n, acc[a]);
    }
    forall name | QualifyingRoute(hits, n + 1, name)
      ensures Listed(acc, name)
    {
      var i :| 0 <= i < n + 1 && Qualifies(hits[i]) && hits[i].doc.name == name;
      assert QualifyingRoute(hits, n, name);
    }
  }

  /** The first qualifying hit of a route seeds its entry. */
  lemma StepSeed(hits: seq<RouteHit>, n: nat, acc: seq<RouteMatch>, meta: Metadata)
    requires n < |hits| && Aggregates(hits, n, acc) && Qualifies(hits[n])
    requires hits[n].doc.metadata == Encoded(meta)
    requires forall a :: 0 <= a < |acc| ==> acc[a].routeName != hits[n].doc.name
    ensures Aggregates(hits, n + 1, acc + [RouteMatch(hits[n].doc.name, hits[n].score, meta)])
  {
    var m' := RouteMatch(hits[n].doc.name, hits[n].score, meta);
    var acc' := acc + [m'];
    assert NamesDistinct(acc') by {
      forall a, b | 0 <= a < b < |acc'|
        ensures acc'[a].routeName != acc'[b].routeName
      {
        assert acc'[a] == acc[a];
      }
    }
    forall a | 0 <= a < |acc'|
      ensures Backed(hits, n + 1, acc'[a])
    {
      if a < |acc| {
        BackedExtends(hits, n, acc[a]);
      } else {
        assert !Listed(acc, m'.routeName);
        assert !QualifyingRoute(hits, n, m'.routeName);
        assert Winner(hits, n + 1, n, m');
      }
    }
    forall name | QualifyingRoute(hits, n + 1, name)
      ensures Listed(acc', name)
    {
      if name == m'.routeName {
        assert acc'[|acc|].routeName == name;
      } else {
        var i :| 0 <= i < n + 1 && Qualifies(hits[i]) && hits[i].doc.name == name;
        assert QualifyingRoute(hits, n, name);
        var a :| 0 <= a < |acc| && acc[a].routeName == name;
        assert acc'[a] == acc[a];
      }
    }
  }

  /** A strictly better hit replaces its route's entry in place. */
  lemma StepReplace(hits: seq<RouteHit>, n: nat, acc: seq<RouteMatch>, meta: Metadata, k: nat)
    requires n < |hits| && Aggregates(hits, n, acc) && Qualifies(hits[n])
    requires hits[n].doc.metadata == Encoded(meta)
    requires k < |acc| && acc[k].routeName == hits[n].doc.name && hits[n].score > acc[k].score
    ensures Aggregates(hits, n + 1, acc[k := RouteMatch(hits[n].doc.name, hits[n].score, meta)])
  {
    var m' := RouteMatch(hits[n].doc.name, hits[n].score, meta);
    var acc' := acc[k := m'];
    var i0 :| Winner(hits, n, i0, acc[k]);
    assert Winner(hits, n + 1, n, m');
    assert NamesDistinct(acc') by {
      forall a, b | 0 <= a < b < |acc'|
        ensures acc'[a].routeName != acc'[b].routeName
      {
        assert acc'[a].routeName == acc[a].routeName && acc'[b].routeName == acc[b].routeName;
      }
    }
    forall a | 0 <= a < |acc'|
      ensures Backed(hits, n + 1, acc'[a])
    {
      if a != k {
        BackedExtends(hits, n, acc[a]);
      }
    }
    forall name | QualifyingRoute(hits, n + 1, name)
      ensures Listed(acc', name)
    {
      if name == m'.routeName {
        assert acc'[k].routeName == name;
      } else {
        var i :| 0 <= i < n + 1 && Qualifies(hits[i]) && hits[i].doc.name == name;
        assert QualifyingRoute(hits, n, name);
        var a :| 0 <= a < |acc| && acc[a].routeName == name;
        assert acc'[a].routeName == acc[a].routeName;
      }
    }
  }

  /** A hit that does not beat its route's entry changes nothing. */
  lemma StepKeep(hits: seq<RouteHit>, n: nat, acc: seq<RouteMatch>, k: nat)
    requires n < |hits| && Aggregates(hits, n, acc)
    requires k < |acc| && acc[k].routeName == hits[n].doc.name && hits[n].score <= acc[k].score
    ensures Aggregates(hits, n + 1, acc)
  {
    forall a | 0 <= a < |acc|
      ensures Backed(hits, n + 1, acc[a])
    {
      BackedExtends(hits, n, acc[a]);
    }
    forall name | QualifyingRoute(hits, n + 1, name)
      ensures Listed(acc, name)
    {
      if name == hits[n].doc.name {
        assert acc[k].routeName == name;
      } else {
        var i :| 0 <= i < n + 1 && Qualifies(hits[i]) && hits[i].doc.name == name;
        assert QualifyingRoute(hits, n, name);
      }
    }
  }

  /** One step keeps the aggregation invariant, and fails exactly on a qualifying hit
      whose metadata does not parse. */
  lemma StepAggregates(hits: seq<RouteHit>, n: nat, acc: seq<RouteMatch>)
    requires n < |hits| && Aggregates(hits, n, acc)
    ensures Step(acc, hits[n]).Ok? <==> !(Qualifies(hits[n]) && hits[n].doc.metadata.Garbled?)
    ensures Step(acc, hits[n]).Err? ==> Step(acc, hits[n]).error == RoutingFailure(MetadataError)
    ensures Step(acc, hits[n]).Ok? ==> Aggregates(hits, n + 1, Step(acc, hits[n]).value)
  {
    var h := hits[n];
    if !Qualifies(h) {
      StepSkip(hits, n, acc);
    } else if h.doc.metadata.Encoded? {
      var meta := h.doc.metadata.value;
      var k := IndexOfRoute(acc, h.doc.name);
      if k < 0 {
        StepSeed(hits, n, acc, meta);
      } else if h.score > acc[k].score {
        StepReplace(hits, n, acc, meta, k);
      } else {
        StepKeep(hits, n, acc, k);
      }
    }
  }

  /** One more hit garbles the prefix exactly when it qualifies with unparsable metadata. */
  lemma GarblesStep(hits: seq<RouteHit>, n: nat)
    requires 0 < n <= |hits|
    ensures Garbles(hits, n) <==> Garbles(hits, n - 1) || (Qualifies(hits[n - 1]) && hits[n - 1].doc.metadata.Garbled?)
  {
    if Garbles(hits, n) && !Garbles(hits, n - 1) {
      var i :| 0 <= i < n && Qualifies(hits[i]) && hits[i].doc.metadata.Garbled?;
      assert i == n - 1;
    }
    if Qualifies(hits[n - 1]) && hits[n - 1].doc.metadata.Garbled? {
      assert Garbles(hits, n);
    }
  }

  /** The fold over all the first `n` hits aggregates them, and fails exactly when a
      qualifying hit's metadata does not parse. */
  lemma {:induction false} FoldAggregates(hits: seq<RouteHit>, n: nat)
    requires n <= |hits|
    ensures Fold(hits, n).Ok? <==> !Garbles(hits, n)
    ensures Fold(hits, n).Ok? ==> Aggregates(hits, n, Fold(hits, n).value)
  {
    if n > 0 {
      FoldAggregates(hits, n - 1);
      GarblesStep(hits, n);
      if Fold(hits, n - 1).Ok? {
        StepAggregates(hits, n - 1, Fold(hits, n - 1).value);
      }
    }
  }

  /** Scores never increase along the sequence. */
  predicate ScoreOrdered(ms: seq<RouteMatch>) {
    forall a, b :: 0 <= a < b < |ms| ==> ms[a].score >= ms[b].score
  }

  /** Insert into a descending list, ahead of the entries with an equal score. */
  function Insert(m: RouteMatch, ms: seq<RouteMatch>): (r: seq<RouteMatch>)
    requires ScoreOrdered(ms)
    ensures ScoreOrdered(r)
    ensures multiset(r) == multiset(ms) + multiset{m}
    ensures forall x :: x in r <==> x == m || x in ms
  {
    if |ms| == 0 || m.score >= ms[0].score then
      ConsOrdered(m, ms);
      [m] + ms
    else
      var rest := Insert(m, ms[1..]);
      assert ms == [ms[0]] + ms[1..];
      assert forall x :: x in rest ==> x.score <= ms[0].score;
      ConsOrdered(ms[0], rest);
      [ms[0]] + rest
  }

  /** An entry scoring at least as much as every entry of an ordered list may lead it. */
  lemma ConsOrdered(x: RouteMatch, ms: seq<RouteMatch>)
    requires ScoreOrdered(ms)
    requires |ms| == 0 || x.score >= ms[0].score
    ensures ScoreOrdered([x] + ms)
  {
    var r := [x] + ms;
    forall a, b | 0 <= a < b < |r|
      ensures r[a].score >= r[b].score
    {
      if a == 0 {
        assert r[b] == ms[b - 1];
        assert ms[0].score >= ms[b - 1].score;
      } else {
        assert r[a] == ms[a - 1] && r[b] == ms[b - 1];
      }
    }
  }

  /** Inserting a route not yet present keeps the names distinct. */
  lemma {:induction false} InsertDistinct(m: RouteMatch, ms: seq<RouteMatch>)
    requires ScoreOrdered(ms) && NamesDistinct(ms)
    requires forall x :: x in ms ==> x.routeName != m.routeName
    ensures NamesDistinct(Insert(m, ms))
  {
    if |ms| == 0 || m.score >= ms[0].score {
    } else {
      assert forall x :: x in ms[1..] ==> x in ms;
      InsertDistinct(m, ms[1..]);
      var rest := Insert(m, ms[1..]);
      assert forall x :: x in rest ==> x.routeName != ms[0].routeName;
    }
  }

  /** The stream's `sorted` by descending score: an ordered permutation. */
  function SortByScore(ms: seq<RouteMatch>): (r: seq<RouteMatch>)
    ensures ScoreOrdered(r)
    ensures multiset(r) == multiset(ms)
    ensures forall x :: x in r <==> x in ms
  {
    if |ms| == 0 then []
    else
      assert ms == [ms[0]] + ms[1..];
      Insert(ms[0], SortByScore(ms[1..]))
  }

  /** Sorting keeps the names distinct. */
  lemma {:induction false} SortDistinct(ms: seq<RouteMatch>)
    requires NamesDistinct(ms)
    ensures NamesDistinct(SortByScore(ms))
  {
    if |ms| > 0 {
      SortDistinct(ms[1..]);
      assert forall x :: x in ms[1..] ==> x.routeName != ms[0].routeName;
      InsertDistinct(ms[0], SortByScore(ms[1..]));
    }
  }

  /** `ms` is a correct answer of `route` for `hits`: ordered by score, one entry per
      route, each entry backed by its winning hit, and every route with a qualifying
      hit present. */
  ghost predicate RoutesFrom(hits: seq<RouteHit>, ms: seq<RouteMatch>) {
    && ScoreOrdered(ms)
    && NamesDistinct(ms)
    && (forall m :: m in ms ==> exists i :: Winner(hits, |hits|, i, m))
    && (forall i :: 0 <= i < |hits| && Qualifies(hits[i]) ==>
          exists m :: m in ms && m.routeName == hits[i].doc.name)
  }

  /** Aggregating and sorting the hits: the model of everything `route` does after the search. */
  function Aggregate(hits: seq<RouteHit>): (r: Result<seq<RouteMatch>>)
    ensures r.Ok? <==> !Garbles(hits, |hits|)
    ensures r.Err? ==> r.error == RoutingFailure(MetadataError)
    ensures r.Ok? ==> RoutesFrom(hits, r.value)
  {
    FoldAggregates(hits, |hits|);
    match Fold(hits, |hits|)
    case Err(e) => Err(e)
    case Ok(acc) =>
      SortedAggregation(hits, acc);
      Ok(SortByScore(acc))
  }

  lemma SortedAggregation(hits: seq<RouteHit>, acc: seq<RouteMatch>)
    requires Aggregates(hits, |hits|, acc)
    ensures RoutesFrom(hits, SortByScore(acc))
  {
    var r := SortByScore(acc);
    SortDistinct(acc);
    forall m | m in r
      ensures exists i :: Winner(hits, |hits|, i, m)
    {
      var a :| 0 <= a < |acc| && acc[a] == m;
      assert Backed(hits, |hits|, acc[a]);
    }
    forall i | 0 <= i < |hits| && Qualifies(hits[i])
      ensures exists m :: m in r && m.routeName == hits[i].doc.name
    {
      assert QualifyingRoute(hits, |hits|, hits[i].doc.name);
      var a :| 0 <= a < |acc| && acc[a].routeName == hits[i].doc.name;
      assert acc[a] in r;
    }
  }
}
