/**
 The three lookups over a manifest's environment list. Each is a linear scan
 that compares the composite key (env, key) of every entry; they take the list
 itself because they read nothing else of the manifest.
 */
module EnvLookup {
  import opened Wrappers
  import opened Data

  /** The composite-key test every lookup applies: both `env` and `key` are equal. */
  predicate Matches(e: Entry, env: string, key: string) {
    e.env == env && e.key == key
  }

  /** Some entry of `es` carries the composite key (env, key). */
  ghost predicate Present(es: seq<Entry>, env: string, key: string) {
    exists i :: 0 <= i < |es| && Matches(es[i], env, key)
  }

  /** Position `i` holds the first entry of `es` that carries (env, key). */
  ghost predicate IsFirstMatch(es: seq<Entry>, env: string, key: string, i: int) {
    && 0 <= i < |es|
    && Matches(es[i], env, key)
    && forall k :: 0 <= k < i ==> !Matches(es[k], env, key)
  }

  /** No two positions of `es` carry the same composite key. */
  ghost predicate UniqueKeys(es: seq<Entry>) {
    forall i, j :: 0 <= i < |es| && 0 <= j < |es| && Matches(es[i], es[j].env, es[j].key) ==> i == j
  }

  /** The entries of `es` that carry (env, key), in list order (an array `filter`). */
  function FilterMatching(es: seq<Entry>, env: string, key: string): (r: seq<Entry>)
    ensures |r| <= |es|
    ensures forall x :: x in r <==> x in es && Matches(x, env, key)
  {
    if |es| == 0 then []
    else
      var tail := FilterMatching(es[1..], env, key);
      if Matches(es[0], env, key) then [es[0]] + tail else tail
  }

  /**
   The filter keeps every matching entry as many times as the list holds it,
   and drops every other entry.
   */
  lemma {:induction false} FilterKeepsMultiplicity(es: seq<Entry>, env: string, key: string)
    ensures var r := FilterMatching(es, env, key);
            forall x :: multiset(r)[x] == if Matches(x, env, key) then multiset(es)[x] else 0
  {
    if |es| > 0 {
      FilterKeepsMultiplicity(es[1..], env, key);
      assert es == [es[0]] + es[1..];
    }
  }

  /** Whether the list holds an entry with (env, key): the filtered list is non-empty. */
  function ExistsEnv(env: string, key: string, es: seq<Entry>): (b: bool)
    ensures b <==> Present(es, env, key)
  {
    var matching := FilterMatching(es, env, key);
    assert |matching| > 0 ==> matching[0] in es && Matches(matching[0], env, key);
    |matching| > 0
  }

  /**
   The position of the first entry with (env, key), or -1 when there is none
   (an array `findIndex`).
   */
  function GetEnvIndexOf(env: string, key: string, es: seq<Entry>): (r: int)
    ensures -1 <= r < |es|
    ensures r == -1 <==> !Present(es, env, key)
    ensures r != -1 <==> ExistsEnv(env, key, es)
    ensures r != -1 ==> IsFirstMatch(es, env, key, r)
  {
    if |es| == 0 then -1
    else if Matches(es[0], env, key) then 0
    else
      var j := GetEnvIndexOf(env, key, es[1..]);
      if j == -1 then -1 else j + 1
  }

  /**
   The first entry with (env, key) (an array `find`); NotFound when no entry
   carries that key.
   */
  function GetEnv(env: string, key: string, es: seq<Entry>): (r: Result<Entry, Error>)
    ensures r.Success? <==> Present(es, env, key)
    ensures r.Failure? ==> r.error == NotFound(env, key)
    ensures r.Success? ==> Matches(r.value, env, key) && r.value in es
  {
    if |es| == 0 then Failure(NotFound(env, key))
    else if Matches(es[0], env, key) then Success(es[0])
    else GetEnv(env, key, es[1..])
  }

  /** `findIndex` lands exactly on the first match wherever that is. */
  lemma IndexOfIsFirstMatch(es: seq<Entry>, env: string, key: string, i: int)
    requires IsFirstMatch(es, env, key, i)
    ensures GetEnvIndexOf(env, key, es) == i
  {
  }

  /**
   `find` and `findIndex` agree: `getEnv` returns the entry at the position
   `getEnvIndexOf` reports, and fails exactly when that position is -1.
   */
  lemma {:induction false} GetEnvAtIndexOf(env: string, key: string, es: seq<Entry>)
    ensures var i := GetEnvIndexOf(env, key, es);
            GetEnv(env, key, es) == if i == -1 then Failure(NotFound(env, key)) else Success(es[i])
  {
    if |es| > 0 && !Matches(es[0], env, key) {
      GetEnvAtIndexOf(env, key, es[1..]);
    }
  }
}
