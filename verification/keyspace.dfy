/** Key and index naming shared by the cache and the router: every document lives
    under `prefix:`, a route's documents under `prefix:name:`, and the search index
    of a prefix is `prefix-index`. */
module KeySpace {
  import opened Common
  import opened Hex

  /** `prefix + "-index"`. */
  function IndexName(prefix: string): (name: string)
    ensures HasPrefix(name, prefix)
    ensures name[|prefix|..] == "-index"
  {
    prefix + "-index"
  }

  /** Two prefixes never share an index. */
  lemma IndexNameInjective(p: string, q: string)
    requires IndexName(p) == IndexName(q)
    ensures p == q
  {
    assert p == IndexName(p)[..|p|];
    assert q == IndexName(q)[..|q|];
  }

  /** The literal part of the SCAN pattern `prefix:*` (clear, and the index's key prefix). */
  function PrefixStem(prefix: string): string {
    prefix + ":"
  }

  /** The literal part of the SCAN pattern `prefix:name:*` (removeRoute). */
  function RouteStem(prefix: string, name: string): string {
    prefix + ":" + name + ":"
  }

  /** The router's `generateKey(name, reference)`, given the MD5 digest of the reference. */
  function RouterKey(prefix: string, name: string, digest: seq<JByte>): (key: string)
    ensures HasPrefix(key, RouteStem(prefix, name))
    ensures HasPrefix(key, PrefixStem(prefix))
    ensures key[|RouteStem(prefix, name)|..] == HexOf(digest)
  {
    RouteStem(prefix, name) + HexOf(digest)
  }

  /** `key` is a document key of route `name`: it starts with `prefix:name:` and the
      rest holds no ':' (a hex digest never does). */
  predicate OwnsKey(prefix: string, name: string, key: string) {
    var stem := RouteStem(prefix, name);
    HasPrefix(key, stem) && NoColon(key[|stem|..])
  }

  lemma RouterKeyOwned(prefix: string, name: string, digest: seq<JByte>)
    ensures OwnsKey(prefix, name, RouterKey(prefix, name, digest))
  {
  }

  /** A key belongs to at most one route: the last ':' separates name from digest. */
  lemma OwnerUnique(prefix: string, n1: string, n2: string, key: string)
    requires OwnsKey(prefix, n1, key) && OwnsKey(prefix, n2, key)
    ensures n1 == n2
  {
    var s1 := RouteStem(prefix, n1);
    var s2 := RouteStem(prefix, n2);
    assert key[|s1| - 1] == s1[|s1| - 1] == ':';
    assert key[|s2| - 1] == s2[|s2| - 1] == ':';
    assert forall i :: |s1| <= i < |key| ==> key[i] == key[|s1|..][i - |s1|] != ':';
    assert forall i :: |s2| <= i < |key| ==> key[i] == key[|s2|..][i - |s2|] != ':';
    assert |s1| == |s2|;
    assert n1 == s1[|prefix| + 1..|prefix| + 1 + |n1|] == key[|prefix| + 1..|prefix| + 1 + |n1|];
    assert n2 == s2[|prefix| + 1..|prefix| + 1 + |n2|] == key[|prefix| + 1..|prefix| + 1 + |n2|];
  }

  /** Whatever follows the stem of route `name:sub`, the result lies under the stem of
      route `name` with a ':' after that stem. */
  lemma NestedStem(prefix: string, name: string, sub: string, tail: string)
    ensures HasPrefix(RouteStem(prefix, name + ":" + sub) + tail, RouteStem(prefix, name))
    ensures !NoColon((RouteStem(prefix, name + ":" + sub) + tail)[|RouteStem(prefix, name)|..])
  {
    var stem := RouteStem(prefix, name);
    var rest := sub + ":" + tail;
    assert RouteStem(prefix, name + ":" + sub) + tail == stem + rest;
    assert (stem + rest)[|stem|..] == rest;
    assert rest[|sub|] == ':';
  }

  /** A key of route `name:sub` starts with the SCAN stem of route `name`, yet `name`
      does not own it. */
  lemma NestedRouteKey(prefix: string, name: string, sub: string, digest: seq<JByte>)
    ensures HasPrefix(RouterKey(prefix, name + ":" + sub, digest), RouteStem(prefix, name))
    ensures !OwnsKey(prefix, name, RouterKey(prefix, name + ":" + sub, digest))
  {
    NestedStem(prefix, name, sub, HexOf(digest));
  }

  /** Distinct digests give distinct keys for the same route. */
  lemma RouterKeyInjective(prefix: string, name: string, d1: seq<JByte>, d2: seq<JByte>)
    requires RouterKey(prefix, name, d1) == RouterKey(prefix, name, d2)
    ensures d1 == d2
  {
    HexOfInjective(d1, d2);
  }

  /** A decimal digit character. */
  function DecimalChar(d: nat): (c: char)
    requires d < 10
    ensures '0' <= c <= '9'
    ensures c as int - '0' as int == d
  {
    ('0' as int + d) as char
  }

  predicate AllDecimal(s: string) {
    forall i :: 0 <= i < |s| ==> '0' <= s[i] <= '9'
  }

  /** The number a string of decimal digits denotes. */
  function DecimalValue(s: string): nat
    requires AllDecimal(s)
  {
    if |s| == 0 then 0 else DecimalValue(s[..|s| - 1]) * 10 + (s[|s| - 1] as int - '0' as int)
  }

  /** Java's `Long.toString` of a non-negative number (a `currentTimeMillis` value). */
  function Decimal(n: nat): (s: string)
    ensures 1 <= |s| && AllDecimal(s)
    ensures DecimalValue(s) == n
    ensures |s| == 1 <==> n < 10
    ensures n > 0 ==> s[0] != '0'
    decreases n
  {
    if n < 10 then [DecimalChar(n)]
    else
      var high := Decimal(n / 10);
      var s := high + [DecimalChar(n % 10)];
      assert s[..|s| - 1] == high;
      s
  }

  /** What the cache hashes for a key: `prompt + llmString + System.currentTimeMillis()`. */
  function CacheKeyInput(prompt: string, llm: string, millis: nat): string {
    prompt + llm + Decimal(millis)
  }

  /** The cache's `generateKey`, given the MD5 digest of the key input. There is no
      scope segment: after `prefix:` come only hex digits. */
  function CacheKey(prefix: string, digest: seq<JByte>): (key: string)
    ensures HasPrefix(key, PrefixStem(prefix))
    ensures |key| == |prefix| + 1 + 2 * |digest|
    ensures AllHex(key[|prefix| + 1..])
    ensures key[|prefix| + 1..] == HexOf(digest)
  {
    PrefixStem(prefix) + HexOf(digest)
  }

  /** Two cache keys under one prefix coincide only when the digests do. */
  lemma CacheKeyInjective(prefix: string, d1: seq<JByte>, d2: seq<JByte>)
    ensures CacheKey(prefix, d1) == CacheKey(prefix, d2) ==> d1 == d2
  {
    if CacheKey(prefix, d1) == CacheKey(prefix, d2) {
      assert HexOf(d1) == CacheKey(prefix, d1)[|prefix| + 1..];
      assert HexOf(d2) == CacheKey(prefix, d2)[|prefix| + 1..];
      HexOfInjective(d1, d2);
    }
  }

  /** The time salt: the same prompt and scope at two different instants hash different inputs. */
  lemma {:induction false} CacheKeyInputsDiffer(prompt: string, llm: string, t1: nat, t2: nat)
    requires t1 != t2
    ensures CacheKeyInput(prompt, llm, t1) != CacheKeyInput(prompt, llm, t2)
  {
    var head := prompt + llm;
    assert Decimal(t1) != Decimal(t2) by {
      assert DecimalValue(Decimal(t1)) == t1 && DecimalValue(Decimal(t2)) == t2;
    }
    assert CacheKeyInput(prompt, llm, t1)[|head|..] == Decimal(t1);
    assert CacheKeyInput(prompt, llm, t2)[|head|..] == Decimal(t2);
  }

  /** Plain concatenation without separators: moving characters between prompt and
      scope leaves the hashed input, and so the key, unchanged. */
  lemma CacheKeyInputAmbiguous(millis: nat)
    ensures CacheKeyInput("ab", "c", millis) == CacheKeyInput("a", "bc", millis)
  {
  }
}
