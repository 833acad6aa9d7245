/** The Redis side as the two components see it: a key/value store of JSON
    documents, the write commands they issue, search answers, and the cursor-driven
    SCAN + DEL loop that `clear` and `removeRoute` share. */
module Store {
  import opened Common
  import opened KeySpace

  /** The keyspace: key -> JSON document. */
  type Store<D> = map<string, D>

  /** The mutating commands the components issue. `Expire` leaves the content as it is;
      when the key actually expires is the server's business. */
  datatype Command<D> = JsonSet(key: string, doc: D) | Expire(key: string, seconds: int)

  /** Some command of `cmds` writes `k`. */
  predicate Written<D>(cmds: seq<Command<D>>, k: string) {
    exists i :: 0 <= i < |cmds| && cmds[i].JsonSet? && cmds[i].key == k
  }

  /** `cmds[i]` is the last command of `cmds` that writes `k`. */
  predicate LastWrite<D>(cmds: seq<Command<D>>, k: string, i: int) {
    && 0 <= i < |cmds| && cmds[i].JsonSet? && cmds[i].key == k
    && forall j :: i < j < |cmds| ==> !(cmds[j].JsonSet? && cmds[j].key == k)
  }

  /** The store after executing `cmds` in order: a written key holds the document of
      the last command that wrote it, and every other key keeps its old value. */
  function Apply<D>(store: Store<D>, cmds: seq<Command<D>>): (after: Store<D>)
    ensures forall k :: k in after <==> k in store || Written(cmds, k)
    ensures forall k :: k in after && !Written(cmds, k) ==> after[k] == store[k]
    ensures forall k :: k in after && Written(cmds, k) ==>
      exists i :: LastWrite(cmds, k, i) && cmds[i].doc == after[k]
  {
    if |cmds| == 0 then store
    else
      var front := cmds[..|cmds| - 1];
      var before := Apply(store, front);
      var last := cmds[|cmds| - 1];
      assert forall i :: 0 <= i < |cmds| - 1 ==> front[i] == cmds[i];
      assert forall k :: Written(cmds, k) <==> Written(front, k) || (last.JsonSet? && last.key == k);
      assert forall k, i :: LastWrite(front, k, i) && !(last.JsonSet? && last.key == k) ==> LastWrite(cmds, k, i);
      match last
      case JsonSet(k, d) =>
        assert LastWrite(cmds, k, |cmds| - 1);
        before[k := d]
      case Expire(_, _) => before
  }

  /** What `ftSearch` answered: the matching documents in the server's order, or an exception. */
  datatype Search<T> = Hits(docs: seq<T>) | SearchFailed

  /** One SCAN reply: the cursor to continue from and a (possibly empty) batch of keys. */
  datatype ScanPage = ScanPage(cursor: string, keys: seq<string>)

  /** The cursor that starts a SCAN iteration and that, returned, ends it. */
  const FinalCursor: string := "0"

  /** The replies reach a final cursor (Redis guarantees a full iteration ends). */
  predicate Terminates(pages: seq<ScanPage>) {
    exists i :: 0 <= i < |pages| && pages[i].cursor == FinalCursor
  }

  /** The index of the first final reply at or after `from`. */
  function FinalFrom(pages: seq<ScanPage>, from: nat): (i: nat)
    requires exists j :: from <= j < |pages| && pages[j].cursor == FinalCursor
    ensures from <= i < |pages| && pages[i].cursor == FinalCursor
    ensures forall j :: from <= j < i ==> pages[j].cursor != FinalCursor
    decreases |pages| - from
  {
    if pages[from].cursor == FinalCursor then from else FinalFrom(pages, from + 1)
  }

  /** How many SCAN calls the loop makes: up to and including the first final reply. */
  function ScanLength(pages: seq<ScanPage>): (n: nat)
    requires Terminates(pages)
    ensures 1 <= n <= |pages|
    ensures pages[n - 1].cursor == FinalCursor
    ensures forall j :: 0 <= j < n - 1 ==> pages[j].cursor != FinalCursor
  {
    FinalFrom(pages, 0) + 1
  }

  /** The keys of the first `n` replies that `sel` picks. */
  function Swept(pages: seq<ScanPage>, n: nat, sel: string -> bool): set<string>
    requires n <= |pages|
  {
    if n == 0 then {} else Swept(pages, n - 1, sel) + Picked(pages[n - 1].keys, sel)
  }

  /** The keys of one batch that `sel` picks. */
  function Picked(keys: seq<string>, sel: string -> bool): set<string> {
    set k | k in keys && sel(k)
  }

  /** A key is swept exactly when some reply among the first `n` returned it and `sel` picks it. */
  lemma {:induction false} SweptMembers(pages: seq<ScanPage>, n: nat, sel: string -> bool, k: string)
    requires n <= |pages|
    ensures k in Swept(pages, n, sel) <==> sel(k) && exists j :: 0 <= j < n && k in pages[j].keys
  {
    if n > 0 {
      SweptMembers(pages, n - 1, sel, k);
    }
  }

  /** The keys of a batch that `sel` picks, in batch order. */
  function Select(keys: seq<string>, sel: string -> bool): (r: seq<string>)
    ensures forall k :: k in r <==> k in keys && sel(k)
  {
    if |keys| == 0 then []
    else (if sel(keys[0]) then [keys[0]] else []) + Select(keys[1..], sel)
  }

  /** Some key of the batch is picked. */
  predicate Picks(keys: seq<string>, sel: string -> bool) {
    exists k :: k in keys && sel(k)
  }

  /** The selector of the source's loops: every returned key is deleted. */
  function AnyKey(k: string): bool {
    true
  }

  /** The SCAN/DEL loop: starting from cursor "0", fetch a reply, delete the picked
      keys of its batch when there are any, and go on until the reply's cursor is "0".
      An empty batch in the middle does not stop it. */
  method ScanDelete<D>(store: Store<D>, pages: seq<ScanPage>, sel: string -> bool)
    returns (after: Store<D>, removed: bool, scans: nat)
    requires Terminates(pages)
    ensures scans == ScanLength(pages) && scans >= 1
    ensures after == store - Swept(pages, scans, sel)
    ensures removed <==> AnyPicked(pages, scans, sel)
  {
    var cursor := FinalCursor;
    after, removed, scans := store, false, 0;
    ghost var len := ScanLength(pages);
    while scans == 0 || cursor != FinalCursor
      invariant scans <= len
      invariant scans > 0 ==> cursor == pages[scans - 1].cursor
      invariant after == store - Swept(pages, scans, sel)
      invariant removed <==> AnyPicked(pages, scans, sel)
      decreases len - scans
    {
      ScanGoesOn(pages, scans);
      var page := pages[scans];
      var batch := Select(page.keys, sel);
      SweepStep(store, pages, scans, sel);
      SelectPicked(page.keys, sel);
      if |batch| > 0 {
        after := after - (set k | k in batch);
        removed := true;
      }
      cursor := page.cursor;
      scans := scans + 1;
    }
    ScanEnds(pages, scans);
  }

  /** The loop makes another call while it has not yet seen a final cursor. */
  lemma ScanGoesOn(pages: seq<ScanPage>, scans: nat)
    requires Terminates(pages) && scans <= ScanLength(pages)
    requires scans == 0 || pages[scans - 1].cursor != FinalCursor
    ensures scans < ScanLength(pages)
  {
  }

  /** The loop stops at the first final cursor. */
  lemma ScanEnds(pages: seq<ScanPage>, scans: nat)
    requires Terminates(pages) && 0 < scans <= ScanLength(pages)
    requires pages[scans - 1].cursor == FinalCursor
    ensures scans == ScanLength(pages)
  {
  }

  /** Some key of the first `n` replies is picked. */
  predicate AnyPicked(pages: seq<ScanPage>, n: nat, sel: string -> bool)
    requires n <= |pages|
  {
    exists j :: 0 <= j < n && Picks(pages[j].keys, sel)
  }

  /** One more reply extends the swept keys by the batch's picked keys. */
  lemma SweepStep<D>(store: Store<D>, pages: seq<ScanPage>, n: nat, sel: string -> bool)
    requires n < |pages|
    ensures store - Swept(pages, n + 1, sel) == store - Swept(pages, n, sel) - Picked(pages[n].keys, sel)
    ensures AnyPicked(pages, n + 1, sel) <==> AnyPicked(pages, n, sel) || Picks(pages[n].keys, sel)
  {
    var n1 := n + 1;
    assert Swept(pages, n1, sel) == Swept(pages, n, sel) + Picked(pages[n].keys, sel);
    if Picks(pages[n].keys, sel) {
      assert Picks(pages[n1 - 1].keys, sel);
    }
  }

  /** The batch `Select` keeps is the set of picked keys; it is empty exactly when
      nothing is picked. */
  lemma SelectPicked(keys: seq<string>, sel: string -> bool)
    ensures (set k | k in Select(keys, sel)) == Picked(keys, sel)
    ensures |Select(keys, sel)| > 0 <==> Picks(keys, sel)
  {
    var batch := Select(keys, sel);
    if |batch| > 0 {
      assert batch[0] in batch;
    }
  }

  /** SCAN's promise for one full iteration: every key present throughout that matches
      the pattern `stem*` is returned at least once. */
  ghost predicate ScanCovers<D>(store: Store<D>, pages: seq<ScanPage>, stem: string)
    requires Terminates(pages)
  {
    forall k :: k in store && HasPrefix(k, stem) ==>
      exists j :: 0 <= j < ScanLength(pages) && k in pages[j].keys
  }

  /** Every returned key matches the pattern `stem*`. */
  ghost predicate ScanMatches(pages: seq<ScanPage>, stem: string)
    requires Terminates(pages)
  {
    forall j, k :: 0 <= j < ScanLength(pages) && k in pages[j].keys ==> HasPrefix(k, stem)
  }

  /** Deleting everything a complete SCAN for `stem*` returned leaves no key under
      `stem`; when the SCAN only returned matching keys, everything else stays. */
  lemma SweepAll<D>(store: Store<D>, pages: seq<ScanPage>, stem: string)
    requires Terminates(pages)
    ensures ScanCovers(store, pages, stem) ==>
      forall k :: k in store - Swept(pages, ScanLength(pages), AnyKey) ==> !HasPrefix(k, stem)
    ensures ScanMatches(pages, stem) ==>
      forall k :: k in store && !HasPrefix(k, stem) ==> k in store - Swept(pages, ScanLength(pages), AnyKey)
  {
    var n := ScanLength(pages);
    if ScanCovers(store, pages, stem) {
      forall k | k in store && HasPrefix(k, stem)
        ensures k in Swept(pages, n, AnyKey)
      {
        SweptMembers(pages, n, AnyKey, k);
      }
    }
    if ScanMatches(pages, stem) {
      forall k | k in store && !HasPrefix(k, stem)
        ensures k !in Swept(pages, n, AnyKey)
      {
        SweptMembers(pages, n, AnyKey, k);
      }
    }
  }

  /** The `clear()` of both components: SCAN for `prefix:*` and delete every key
      returned. A complete SCAN leaves no key under `prefix:`; keys outside it survive
      when the SCAN returned only matching keys. */
  method Clear<D>(store: Store<D>, pages: seq<ScanPage>, prefix: string) returns (after: Store<D>)
    requires Terminates(pages)
    ensures after == store - Swept(pages, ScanLength(pages), AnyKey)
    ensures ScanCovers(store, pages, PrefixStem(prefix)) ==>
      forall k :: k in after ==> !HasPrefix(k, PrefixStem(prefix))
    ensures ScanMatches(pages, PrefixStem(prefix)) ==>
      forall k :: k in store && !HasPrefix(k, PrefixStem(prefix)) ==> k in after
  {
    var removed, scans;
    after, removed, scans := ScanDelete(store, pages, AnyKey);
    SweepAll(store, pages, PrefixStem(prefix));
  }
}
