# Environment-list editor

A model of the part of the ArgoCD manifest action that edits the list of
deployment environments inside a manifest. Each entry of that list is
identified by the composite key `(env, key)`. The editor offers three lookups
(`existsEnv`, `getEnv`, `getEnvIndexOf`), an insert-or-update (`putEnv`,
gated by `enable_update`) and a removal (`deleteEnv`, gated by
`enable_permanent_protection` and the entry's `lifecycle`). It also
validates a single action input (`getActionInput`) against a default and a
list of allowed values.

Files:

- `wrappers.dfy` (`Wrappers`): `Option` and `Result`. The model returns the
  errors that the source throws.
- `data.dfy` (`Data`): the records of `src/data.ts`. These are `Entry`
  (`IEnvironment`), `Manifest` (the entry list plus the rest of the
  document as an untouched failsafe YAML tree), `Options` (`IOption`), and
  `Error`, which has one constructor per exception the core throws.
- `env_lookup.dfy` (`EnvLookup`): the three linear-scan lookups over
  `manifest.environments`. They take the list itself because they read
  nothing else of the manifest.
- `env_edit.dfy` (`EnvEdit`): `putEnv` and `deleteEnv`, plus lemmas that
  relate several calls: put then get, put then delete, idempotence, and
  preservation of unique keys.
- `action_input.dfy` (`ActionInput`): `getActionInput`. The runner's raw
  value is passed in as a string parameter.

The source calls `clone` before changing the manifest. In the model that
copy is simply value semantics: every operation returns a new `Manifest`,
and a failure returns no manifest. The source stores `key.toString()` for the
candidate. The candidate's key is already a string: `IEnvironment.key` is
declared `string` (src/data.ts:59) and `inputs()` stringifies it
(src/util.ts:25). So the model stores the candidate's key unchanged. The
manifest's own keys are strings too, because it is read with the failsafe
schema.

## Model

| member | source | states |
|---|---|---|
| EnvLookup.FilterMatching | src/util.ts:97-98 | The filtered list holds exactly the entries of the input that match both `env` and `key`, and it is no longer than the input |
| EnvLookup.FilterKeepsMultiplicity | src/util.ts:97-98 | The filtered list holds each matching entry as many times as the input does, and no entry that does not match |
| EnvLookup.ExistsEnv | src/util.ts:97-99 | True exactly when some position of the list matches both `env` and `key` |
| EnvLookup.GetEnvIndexOf | src/util.ts:113-114 | The result is -1 exactly when no entry matches, which is exactly when `ExistsEnv` is false. Otherwise the entry at the result matches and no earlier entry does |
| EnvLookup.GetEnv | src/util.ts:101-111 | Succeeds exactly when a matching entry exists, and returns an entry of the list that matches. Otherwise it fails with NotFound for that `(env, key)` |
| EnvLookup.IndexOfIsFirstMatch | src/util.ts:113-114 | Whenever position `i` is the first match, `getEnvIndexOf` returns `i` |
| EnvLookup.GetEnvAtIndexOf | src/util.ts:101-114 | `find` and `findIndex` agree: `getEnv` returns the entry at the position `getEnvIndexOf` reports. This holds even when entries with the same key exist in other envs. It fails with NotFound exactly when that position is -1 |
| EnvEdit.PutEnv | src/util.ts:58-78 | Fails with AlreadyExists exactly when updates are off and the key is present. Otherwise the rest of the manifest is unchanged. An absent key gives a list one longer, with the old entries in place and the candidate last. A present key gives a list of the same length, with the candidate at the first match's index and every other entry unchanged |
| EnvEdit.PutThenGet | src/util.ts:65-76 | After a successful put, `getEnv` for the candidate's `(env, key)` returns the candidate |
| EnvEdit.PutIsIdempotent | src/util.ts:65-70 | With updates on, put always succeeds. Putting the same entry again returns the same manifest |
| EnvEdit.PutTwiceWithoutUpdateFails | src/util.ts:59-62 | With updates off, a second put of a just-inserted entry fails with AlreadyExists |
| EnvEdit.PutPreservesUniqueKeys | src/util.ts:65-76 | If the input list has at most one entry per `(env, key)`, so does the list after a successful put |
| EnvEdit.DeleteEnv | src/util.ts:80-95 | An absent key fails with NotFound. A present key fails exactly when protection is on and the first match is permanent, and the error is then Protected. On success the rest of the manifest is unchanged. The list loses exactly the first match's position, and the other entries keep their order |
| EnvEdit.DeleteUnprotectedSucceedsIffPresent | src/util.ts:81-89 | With protection off, delete succeeds exactly when the key is present, so permanent entries are deletable |
| EnvEdit.DeleteRemovesExactlyOne | src/util.ts:91-92 | The multiset of the result, plus the first matching entry, is the multiset of the input |
| EnvEdit.DeletePreservesUniqueKeys | src/util.ts:91-92 | If the input list has at most one entry per `(env, key)`, so does the list after a successful delete |
| EnvEdit.DeleteRemovesKey | src/util.ts:91-92 | On a list with unique keys, no entry with the target key is left after a successful delete |
| EnvEdit.PutThenDeleteRestores | src/util.ts:73-92 | Appending an absent entry and then deleting it gives back the original manifest. The delete must not be blocked by protection |
| EnvEdit.DeleteOnlyEntryEmpties | __tests__/util.test.ts:234-255 | Deleting the only entry, when it matches and is not protected, leaves an empty list |
| ActionInput.GetActionInput | src/util.ts:9-20 | An empty raw value with a default gives the default. Otherwise the call fails with InvalidInput (naming the input and the value) exactly when a non-empty allowed list lacks the value. Every accepted value is either the raw value, which passes the list, or the default standing in for an empty value |
| ActionInput.AcceptedValueIsStable | src/util.ts:9-20 | When the default passes the allowed list, every accepted value passes it as well. Validating an accepted value again returns the same value |

## Left out

- `read` and `write` (src/util.ts:42-54) are left out. They are file I/O plus YAML parsing and dumping by the js-yaml library, whose code is not part of this model. The failsafe schema shows up only in the model's choices: keys are strings, and the untouched part of the manifest is a tree of string scalars.
- `inputs()` (src/util.ts:22-40) is left out. It only maps each runner input, field by field, through `getActionInput`, which is modelled on its own.
- `src/main.ts` is left out. It is runner plumbing: reading inputs, parsing the `=== 'true'` flags, writing the backup file, setting outputs, and turning exceptions into a failed run.
- ActionInput.GetActionInput: does not model the `required` flag or whitespace trimming. Both happen inside `core.getInput` of @actions/core, whose code is not part of this model. The raw value arrives already looked up. The generic result type `T` is modelled as `string`, since the source only casts the string.
- `core.debug` logging is left out. It has no effect on the results.
- The exact error message texts are left out. Each error keeps the data its message names.
- The model assumes the `environments` list that src/data.ts:53 declares. A manifest without that key, or with an empty `environments:` (which the failsafe schema reads as `null`), makes `manifest.environments.filter` throw a TypeError at src/util.ts:97-98. So `putEnv` and `deleteEnv` fail on it, while a model manifest always has a list.
- EnvLookup.FilterMatching: states which entries the filtered list holds, and EnvLookup.FilterKeepsMultiplicity how many times each, but neither states their order. Its only consumer, `existsEnv`, reads only `.length > 0`.
- The payload fields (`action_type`, `action_labels`, `image.tag`, `deployment.strategy`) are closed types that are always present. In the source an entry can lack them, and an entry read from disk holds failsafe strings and may carry extra fields. The editor copies these fields but never inspects them, so no result depends on this choice.
- Lifecycle is a two-valued datatype. In a manifest read from disk, `lifecycle` can be any string or can be missing. The only consumer, the protection check of `deleteEnv`, compares it with `'permanent'`, so every other value behaves like `Temporary`.
