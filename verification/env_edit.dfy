/**
 Insert-or-update and removal of environment entries. Both work on a copy of
 the manifest, which value semantics gives for free: the caller's manifest is
 never changed, and a failure returns no manifest at all.
 */
module EnvEdit {
  import opened Wrappers
  import opened Data
  import opened EnvLookup

  /** `after` is `before` with `e` added at the end. */
  ghost predicate Appended(before: seq<Entry>, after: seq<Entry>, e: Entry) {
    && |after| == |before| + 1
    && (forall k :: 0 <= k < |before| ==> after[k] == before[k])
    && after[|before|] == e
  }

  /** `after` is `before` with position `i` holding `e` and every other position unchanged. */
  ghost predicate ReplacedAt(before: seq<Entry>, after: seq<Entry>, i: int, e: Entry) {
    && 0 <= i < |before|
    && |after| == |before|
    && after[i] == e
    && forall k :: 0 <= k < |before| && k != i ==> after[k] == before[k]
  }

  /** `after` is `before` without position `i`, the rest in their original order. */
  ghost predicate RemovedAt(before: seq<Entry>, after: seq<Entry>, i: int) {
    && 0 <= i < |before|
    && |after| == |before| - 1
    && (forall k :: 0 <= k < i ==> after[k] == before[k])
    && forall k :: i <= k < |after| ==> after[k] == before[k + 1]
  }

  /**
   Insert-or-update. With updates disabled an existing (env, key) is an
   error; otherwise the first entry with that key is replaced where it stands,
   or, when there is none, the candidate is appended. The stored key is the
   candidate's key as a string; the candidate's key is already a string (the
   entry type declares it so and the input mapping stringifies it), so it is
   stored unchanged.
   */
  function PutEnv(put: Entry, m: Manifest, options: Options): (r: Result<Manifest, Error>)
    ensures r.Failure? <==> !options.enableUpdate && Present(m.environments, put.env, put.key)
    ensures r.Failure? ==> r.error == AlreadyExists(put.env, put.key)
    ensures r.Success? ==> r.value.rest == m.rest
    ensures r.Success? && !Present(m.environments, put.env, put.key) ==>
              Appended(m.environments, r.value.environments, put)
    ensures r.Success? && Present(m.environments, put.env, put.key) ==>
              ReplacedAt(m.environments, r.value.environments, GetEnvIndexOf(put.env, put.key, m.environments), put)
  {
    var found := ExistsEnv(put.env, put.key, m.environments);
    if !options.enableUpdate && found then
      Failure(AlreadyExists(put.env, put.key))
    else if found then
      var i := GetEnvIndexOf(put.env, put.key, m.environments);
      Success(m.(environments := m.environments[i := put]))
    else
      Success(m.(environments := m.environments + [put]))
  }

  /**
   Removal. An absent (env, key) is NotFound; with protection on, a first
   match whose lifecycle is permanent is Protected; otherwise the first match
   is spliced out.
   */
  function DeleteEnv(target: Entry, m: Manifest, options: Options): (r: Result<Manifest, Error>)
    ensures !Present(m.environments, target.env, target.key) ==> r == Failure(NotFound(target.env, target.key))
    ensures Present(m.environments, target.env, target.key) ==>
              var i := GetEnvIndexOf(target.env, target.key, m.environments);
              && (r.Failure? <==> options.enablePermanentProtection && m.environments[i].lifecycle == Permanent)
              && (r.Failure? ==> r.error == Protected(target.env, target.key))
              && (r.Success? ==> r.value.rest == m.rest && RemovedAt(m.environments, r.value.environments, i))
  {
    if !ExistsEnv(target.env, target.key, m.environments) then
      Failure(NotFound(target.env, target.key))
    else if options.enablePermanentProtection && GetEnv(target.env, target.key, m.environments).value.lifecycle == Permanent then
      GetEnvAtIndexOf(target.env, target.key, m.environments);
      Failure(Protected(target.env, target.key))
    else
      GetEnvAtIndexOf(target.env, target.key, m.environments);
      var i := GetEnvIndexOf(target.env, target.key, m.environments);
      Success(m.(environments := m.environments[..i] + m.environments[i + 1..]))
  }

  /** A successful put is visible to the next lookup: `getEnv` returns the candidate. */
  lemma PutThenGet(put: Entry, m: Manifest, options: Options)
    requires PutEnv(put, m, options).Success?
    ensures GetEnv(put.env, put.key, PutEnv(put, m, options).value.environments) == Success(put)
  {
    var es := m.environments;
    var after := PutEnv(put, m, options).value.environments;
    var i := if Present(es, put.env, put.key) then GetEnvIndexOf(put.env, put.key, es) else |es|;
    assert IsFirstMatch(after, put.env, put.key, i);
    IndexOfIsFirstMatch(after, put.env, put.key, i);
    GetEnvAtIndexOf(put.env, put.key, after);
  }

  /** Putting the same entry twice with updates enabled changes nothing the second time. */
  lemma PutIsIdempotent(put: Entry, m: Manifest, options: Options)
    requires options.enableUpdate
    ensures var once := PutEnv(put, m, options);
            once.Success? && PutEnv(put, once.value, options) == once
  {
    var once := PutEnv(put, m, options).value;
    var es := m.environments;
    var i := if Present(es, put.env, put.key) then GetEnvIndexOf(put.env, put.key, es) else |es|;
    assert IsFirstMatch(once.environments, put.env, put.key, i);
    IndexOfIsFirstMatch(once.environments, put.env, put.key, i);
    assert once.environments[i := put] == once.environments;
  }

  /** Without update permission a second put of the same key is refused. */
  lemma PutTwiceWithoutUpdateFails(put: Entry, m: Manifest, options: Options)
    requires !options.enableUpdate
    requires PutEnv(put, m, options).Success?
    ensures PutEnv(put, PutEnv(put, m, options).value, options) == Failure(AlreadyExists(put.env, put.key))
  {
  }

  /** A put preserves "at most one entry per (env, key)". */
  lemma PutPreservesUniqueKeys(put: Entry, m: Manifest, options: Options)
    requires UniqueKeys(m.environments)
    requires PutEnv(put, m, options).Success?
    ensures UniqueKeys(PutEnv(put, m, options).value.environments)
  {
  }

  /** A delete preserves "at most one entry per (env, key)". */
  lemma DeletePreservesUniqueKeys(target: Entry, m: Manifest, options: Options)
    requires UniqueKeys(m.environments)
    requires DeleteEnv(target, m, options).Success?
    ensures UniqueKeys(DeleteEnv(target, m, options).value.environments)
  {
  }

  /** On a list with unique keys, a successful delete leaves no entry with the target key. */
  lemma DeleteRemovesKey(target: Entry, m: Manifest, options: Options)
    requires UniqueKeys(m.environments)
    requires DeleteEnv(target, m, options).Success?
    ensures !Present(DeleteEnv(target, m, options).value.environments, target.env, target.key)
  {
  }

  /** A delete removes exactly one occurrence of the first matching entry and nothing else. */
  lemma DeleteRemovesExactlyOne(target: Entry, m: Manifest, options: Options)
    requires DeleteEnv(target, m, options).Success?
    ensures var i := GetEnvIndexOf(target.env, target.key, m.environments);
            multiset(DeleteEnv(target, m, options).value.environments) + multiset{m.environments[i]}
              == multiset(m.environments)
  {
    var es := m.environments;
    var i := GetEnvIndexOf(target.env, target.key, es);
    var after := DeleteEnv(target, m, options).value.environments;
    assert after == es[..i] + es[i + 1..];
    assert es == es[..i] + [es[i]] + es[i + 1..];
  }

  /** With protection off, permanent entries are deletable: delete fails only on an absent key. */
  lemma DeleteUnprotectedSucceedsIffPresent(target: Entry, m: Manifest, options: Options)
    requires !options.enablePermanentProtection
    ensures DeleteEnv(target, m, options).Success? <==> ExistsEnv(target.env, target.key, m.environments)
  {
  }

  /**
   Deleting a freshly appended entry restores the manifest, unless protection
   guards it.
   */
  lemma PutThenDeleteRestores(put: Entry, m: Manifest, options: Options)
    requires !Present(m.environments, put.env, put.key)
    requires !options.enablePermanentProtection || put.lifecycle == Temporary
    ensures var added := PutEnv(put, m, options);
            added.Success? && DeleteEnv(put, added.value, options) == Success(m)
  {
    var es := m.environments;
    var added := PutEnv(put, m, options).value;
    assert IsFirstMatch(added.environments, put.env, put.key, |es|);
    IndexOfIsFirstMatch(added.environments, put.env, put.key, |es|);
    assert added.environments[..|es|] + added.environments[|es| + 1..] == es;
  }

  /** Deleting the only entry, when it carries the target key and is not protected, empties the list. */
  lemma DeleteOnlyEntryEmpties(target: Entry, m: Manifest, options: Options)
    requires |m.environments| == 1 && Matches(m.environments[0], target.env, target.key)
    requires !options.enablePermanentProtection || m.environments[0].lifecycle == Temporary
    ensures DeleteEnv(target, m, options) == Success(m.(environments := []))
  {
  }
}
