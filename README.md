# Secrets-test charm: the secret cache

This project models the secret cache of `SecretsTestCharm`, a Juju charm that keeps
one key/value secret. Each charm instance holds two things:

- its own cache of the secret's content (`_secrets`);
- a cached handle of the secret (`_secret_meta`).

Both are reset for every event. The id of the secret is recorded under `"secret-id"`
in the application peer data. The content lives in the Juju secret store. Those two
outlive the instance.

The operations are:

- the `secret_meta` getter and setter;
- the lazily loading `cached_secrets`;
- the three cache helpers;
- `get_secrets`, `set_secret` and `delete_secret`;
- the five action handlers: set, get, delete a list of keys, pseudo-delete a list of
  keys (`"### DELETED ###"` written for each), and forget-all.

The project has five modules.

- `SecretStore` (`secret_store.dfy`) is the secret store as a value: a map from
  secret id to content, plus the serial the next `add_secret` uses. Ids are
  `"secret:"` followed by the decimal serial. A round-trip lemma on the decimal form
  proves that a new id is never one already in use.
- `SecretCache` (`secret_cache.dfy`) gives the semantics of one charm instance as
  step functions. They work over `State(cache, meta, peer, store)` and return the new
  state with a result or the exception raised. Its invariant `Valid` says:
  - a non-empty cache implies a recorded handle;
  - a recorded handle names a live secret whose stored content is the cache and whose
    id is the one in the peer data.

  Exceptions are modelled as `Err` values:
  - `NoSecret` is `self.secret_meta.id` on `None`;
  - `MissingPeerKey` is `del` of an absent `"secret-id"`;
  - `MissingKeys` is an action without its `keys` parameter.
- `Charm` (`charm.dfy`) is the charm as imperative code.
  - Class `Backend` holds the peer data and the store that every instance shares.
  - Class `SecretsTestCharm` holds the fields `secrets` and `secretMeta`. Its methods
    follow the source line by line, including the loops of the delete and
    pseudo-delete actions. The one exception is `delete_secret`, which comes twice:
    - `DeleteSecretAsWritten` follows the source as written;
    - `DeleteSecret` tests and writes the local cache at lines 147-148 (see
      "## Findings").

    The delete-secrets action loops over the corrected `DeleteSecret`.
  - Each method of `SecretsTestCharm` that reads or writes the backend is proved to
    change the instance and its backend exactly as the matching `SecretCache` function
    says. The three cache helpers `AppendCachedSecret`, `CreateCachedSecret` and
    `RemoveCachedSecret` touch only the cache, and are specified by the map update they
    make. The `Backend` methods are specified by the `SecretStore` functions and by map
    updates of the peer data.
- `CacheProperties` (`cache_properties.dfy`) holds the lemmas across several
  operations:
  - the getter's caching;
  - merging on repeated sets;
  - the delete loop that keeps the rest, or (with the corrected `delete_secret`) removes
    the secret;
  - the pseudo-delete loop;
  - forget-all;
  - the finding below.
- `Scenarios` (`scenarios.dfy`) holds the action sequences of the repository's
  integration tests on three and five keys. Each is run as a series of fresh
  instances over one backend.
  - The delete scenarios hold for the corrected `delete_secret`.
  - `DeleteThreeInSeparateActionsAsWritten` runs the last delete of one scenario as
    written: `key2` survives. The test that sequence comes from is documented as
    working.
  - The scenarios prove the charm's logic over the abstract store. They say nothing
    about whether the tests pass against a live Juju model. Several of those tests
    are marked there as expected to fail (tests/integration/test_charm.py:108, 135,
    160, 186, 212).
  - The 15-key tests have no scenario of their own. The general lemmas
    `DeleteKeysRemovesSecret` and `PseudoDeleteKeepsKeys` cover them for any number
    of keys.

## Model

| member | source | states |
|---|---|---|
| SecretStore.AddSecret | src/charm.py:134 | `app.add_secret`: the new id is not in the store, the store gains exactly that id with the given content, and the allocator invariant is kept |
| SecretStore.SetContent | src/charm.py:130 | `set_content`: same set of ids; the given id now holds the content; every other secret is unchanged |
| SecretStore.RemoveAllRevisions | src/charm.py:151 | `remove_all_revisions`: the id leaves the store; every other secret is unchanged |
| SecretStore.DecimalRoundTrip | src/charm.py:134 | the backend's decimal serials read back as the number they encode, so ids issued for different serials differ |
| SecretCache.PeerId | src/charm.py:86-87 | `app_peer_data.get("secret-id")` read as a truth value (also at line 67): an id exactly when the key is present with a non-empty value, and then that value |
| CacheProperties.ValidCacheIsStored | src/charm.py:103-109 | the invariant `SecretCache.Valid` that get, set and delete keep (and forget-all on a fresh instance, `CacheProperties.ForgetAllKeepsValid`): a non-empty cache has a recorded handle, and under a handle the cache is the content the instance reaches and the peer data names that handle |
| SecretCache.NewEvent | src/charm.py:31-35 | a new instance has an empty cache and no handle, over the same peer data and store |
| SecretCache.Resolve | src/charm.py:84-93 | the getter returns a cached handle as is; without one it returns the peer data's id exactly when it is present, non-empty and in the store, and nothing otherwise |
| SecretCache.SetMeta | src/charm.py:95-101 | the setter succeeds iff it is given a handle or `"secret-id"` is present; on success the handle is cached and `"secret-id"` is set to its id or removed; on failure nothing changes and the error is the missing key; cache, store and other peer keys never change |
| SecretCache.CachedSecrets | src/charm.py:103-109 | a non-empty cache is kept; otherwise the handle is resolved and the cache changes only to the handle's stored content; under `Valid` the result is `Valid`, its cache is the reachable stored content and its handle is the resolved one |
| SecretCache.GetSecrets | src/charm.py:121-123 | returns the content of the secret the instance can reach, or the empty map when there is none; peer data and store unchanged; `Valid` kept |
| SecretCache.SetSecret | src/charm.py:125-137 | always succeeds; the new content is the stored content overridden key-wise by the new one, written under the returned id; with stored content present the id is the existing handle and the peer data is unchanged; without it the id is fresh and recorded under `"secret-id"`; `Valid` kept |
| SecretCache.DeleteSecret | src/charm.py:139-153 | fails (no handle) iff no secret is reachable; otherwise the cache is the stored content without the key; when that is non-empty it is written back and handle and peer data are kept; when it is empty the secret is removed, `"secret-id"` deleted and the handle cleared; `Valid` kept, with the corrected `delete_secret` |
| SecretCache.DeleteSecretAsWritten | src/charm.py:139-153 | `delete_secret` with lines 147-148 re-reading through `cached_secrets`; same failure condition; agrees with the corrected version whenever content survives the removal |
| SecretCache.DeleteKeys | src/charm.py:58-59 | the delete loop stops at the first exception, which is always the missing handle; `Valid` holds after a loop without exceptions, with the corrected `delete_secret` |
| SecretCache.PseudoDeleteKeys | src/charm.py:63-64 | the pseudo-delete loop never raises and keeps `Valid` |
| SecretCache.OnDeleteSecretsAction | src/charm.py:56-59 | without `keys` the action fails before any change; otherwise it is the delete loop, with the corrected `delete_secret` |
| SecretCache.OnPseudoDeleteSecretsAction | src/charm.py:61-64 | without `keys` the action fails before any change; otherwise it is the pseudo-delete loop |
| SecretCache.ForgetAll | src/charm.py:66-69 | store and cache untouched; afterwards the peer data yields no id; only `"secret-id"` may change; the action raises the missing-key error at line 100 iff an id was recorded |
| Charm.Backend.PeerGet | src/charm.py:86 | `app_peer_data.get`: present iff the key is in the peer data, with its value |
| Charm.Backend.PeerSet | src/charm.py:98 | `app_peer_data[key] = value`: only that key changes |
| Charm.Backend.PeerDelete | src/charm.py:100 | `del app_peer_data[key]`: removes a present key; an absent key is an error and nothing changes |
| Charm.Backend.GetSecret | src/charm.py:90-92 | `model.get_secret`: a handle iff the id is in the store (otherwise not found) |
| Charm.Backend.GetContent | src/charm.py:106 | `get_content`: the stored content of the handle's id |
| Charm.Backend.SetContent | src/charm.py:130 | the store becomes `SecretStore.SetContent` of the old store; peer data unchanged |
| Charm.Backend.AddSecret | src/charm.py:134 | the store and id are `SecretStore.AddSecret` of the old store; peer data unchanged |
| Charm.Backend.RemoveAllRevisions | src/charm.py:151 | the store becomes `SecretStore.RemoveAllRevisions` of the old store; peer data unchanged |
| Charm.SecretsTestCharm.constructor | src/charm.py:31-35 | empty cache, no handle, the given backend; `Valid` whenever the store's allocator is |
| Charm.SecretsTestCharm.SecretMeta | src/charm.py:84-93 | returns `Resolve` of the old state and caches it in `secretMeta`; nothing else changes |
| Charm.SecretsTestCharm.SetSecretMeta | src/charm.py:95-101 | the new state and the result are those of `SetMeta` |
| Charm.SecretsTestCharm.CachedSecrets | src/charm.py:103-109 | the new state is `SecretCache.CachedSecrets` of the old; returns the cache |
| Charm.SecretsTestCharm.AppendCachedSecret | src/charm.py:111-112 | the cache is the old cache updated with the new content; handle unchanged |
| Charm.SecretsTestCharm.CreateCachedSecret | src/charm.py:114-115 | the cache is the given content; handle unchanged |
| Charm.SecretsTestCharm.RemoveCachedSecret | src/charm.py:117-119 | the cache loses the key, if present; handle unchanged |
| Charm.SecretsTestCharm.GetSecrets | src/charm.py:121-123 | new state and result are those of `SecretCache.GetSecrets`; `Valid` kept |
| Charm.SecretsTestCharm.SetSecret | src/charm.py:125-137 | new state and returned id are those of `SecretCache.SetSecret`; `Valid` kept |
| Charm.SecretsTestCharm.DeleteSecret | src/charm.py:139-153 | new state and result are those of the corrected `SecretCache.DeleteSecret`; `Valid` kept on success |
| Charm.SecretsTestCharm.DeleteSecretAsWritten | src/charm.py:139-153 | `delete_secret` as written, re-reading through `cached_secrets` at lines 147-148; new state and result are those of `SecretCache.DeleteSecretAsWritten`; `Valid` kept on success |
| Charm.SecretsTestCharm.OnSetSecretAction | src/charm.py:48-50 | the set-secret action is `SecretCache.SetSecret` on the action's parameters |
| Charm.SecretsTestCharm.OnGetSecretsAction | src/charm.py:52-54 | the get-secrets action is `SecretCache.GetSecrets` |
| Charm.SecretsTestCharm.OnDeleteSecretsAction | src/charm.py:56-59 | the loop over `keys` ends in the state and result of `SecretCache.OnDeleteSecretsAction`, stopping at the first exception |
| Charm.SecretsTestCharm.OnPseudoDeleteSecretsAction | src/charm.py:61-64 | the loop over `keys` ends in the state and result of `SecretCache.OnPseudoDeleteSecretsAction` |
| Charm.SecretsTestCharm.OnForgetAllSecretsAction | src/charm.py:66-69 | the new state and result are those of `ForgetAll` |
| CacheProperties.TombstonesAt | src/charm.py:63-64 | the tombstones a key list writes cover exactly the listed keys, each with `"### DELETED ###"` |
| CacheProperties.GetterCachesHandle | src/charm.py:84-93 | once the getter has cached a handle, later calls return it whatever the peer data then holds |
| CacheProperties.SetterThenGetter | src/charm.py:95-101 | after a successful setter call the getter returns what was set; after setting `None` a fresh instance finds no handle |
| CacheProperties.StoredContentAfterSet | src/charm.py:125-137 | after `set_secret` the content the instance reaches is its cache |
| CacheProperties.SetTwiceMerges | src/charm.py:125-137 | two sets in a row give the stored content overridden by the first and then the second; with content present the second returns the same id as the first |
| CacheProperties.DeleteKeysSnoc | src/charm.py:58-59 | a loop over a key list is the loop over all but the last key, then one more `delete_secret` |
| CacheProperties.DeleteKeepsStep | src/charm.py:144-149 | one delete that leaves content removes exactly the key, keeps the handle and the peer data, and writes the rest to the handle's entry |
| CacheProperties.DeleteKeysKeepsRest | src/charm.py:56-59 | deleting a list of keys that leaves content: no exception, the content is the stored content without the listed keys, same handle and peer data, and only the handle's entry in the store changes |
| CacheProperties.DeleteEmptiesSecret | src/charm.py:150-153 | the delete that removes the last key removes the secret, deletes `"secret-id"`, clears the handle, and a later get-secrets returns empty content, with the corrected `delete_secret` |
| CacheProperties.DeleteKeysRemovesSecret | src/charm.py:56-59 | deleting a list of keys that covers the content, with content left before the last key: no exception, the secret is gone from the store and the peer data, and a later get-secrets returns empty content, with the corrected `delete_secret` |
| CacheProperties.DeleteKeysStopsAtError | src/charm.py:58-59 | once a delete in the loop has raised, the later keys change nothing |
| CacheProperties.DeleteKeysWithoutSecretFails | src/charm.py:145 | with no reachable secret, any non-empty delete action raises the missing-handle error |
| CacheProperties.DeleteKeysPastEmptyFails | src/charm.py:145 | keys listed after the one that emptied the secret make the action raise the missing-handle error, with the corrected `delete_secret` |
| CacheProperties.PseudoDeleteSnoc | src/charm.py:63-64 | a pseudo-delete loop is the loop over all but the last key, then one more `set_secret` |
| CacheProperties.PseudoDeleteStep | src/charm.py:64 | one pseudo-delete merges the tombstone into the reachable content and leaves a handle whose content is the cache |
| CacheProperties.PseudoDeleteMarksKeys | src/charm.py:61-64 | after pseudo-deleting a non-empty key list, the content is the old content overridden by a tombstone per listed key, held by the handle the instance has |
| CacheProperties.PseudoDeleteKeepsKeys | src/charm.py:61-64 | pseudo-delete removes no key: the keys are the old ones plus the listed ones; each listed key holds the tombstone; every unlisted key keeps its value |
| CacheProperties.ForgetAllKeepsValid | src/charm.py:66-69 | forget-all run by a fresh instance, as every action is, leaves a state satisfying `Valid` |
| CacheProperties.ForgetAllThenGetIsEmpty | src/charm.py:66-69 | forget-all leaves the store as it was, yet the next get-secrets returns empty content |
| CacheProperties.DeleteAsWrittenKeepsLastKey | src/charm.py:147-148 | `delete_secret` as written differs from the corrected one iff the key removed is the only key; then it raises nothing, changes neither store nor peer data, and the key is still there |
| Scenarios.ForgetThenSet | tests/integration/test_charm.py:59-62 | forget-all then set-secret leaves a state whose next instance reaches exactly the content set |
| Scenarios.DeleteOneKeepsRest | src/charm.py:56-59 | a delete action on one key that leaves content raises nothing, and the next instance reaches the rest |
| Scenarios.DeleteOnlyKeyRemoves | src/charm.py:56-59 | a delete action on a secret's only key raises nothing, and the next get-secrets returns empty content, with the corrected `delete_secret` |
| Scenarios.FirstTwoSeparateDeletes | tests/integration/test_charm.py:59-76 | forget-all, set three keys, then delete `key0` and `key1` in separate actions: nothing raises and the next instance reaches only `key2` |
| Scenarios.DeleteThreeInSeparateActionsAsWritten | tests/integration/test_charm.py:54-78 | the same sequence with the last delete as written: nothing raises, and the next get-secrets still returns `{"key2": "value2"}`, against the test's expectation |
| Scenarios.DeleteThreeInSeparateActions | tests/integration/test_charm.py:54-78 | deleting three keys one action at a time raises nothing and the last get-secrets returns empty content, with the corrected `delete_secret` |
| Scenarios.DeleteAllThreeInOneAction | tests/integration/test_charm.py:81-102 | deleting all three keys in one action raises nothing and the next get-secrets returns empty content, with the corrected `delete_secret` |
| Scenarios.DeleteEvenOfFiveInOneAction | tests/integration/test_charm.py:105-129 | deleting the even keys of five in one action leaves exactly `key1` and `key3` with their values, with the corrected `delete_secret` |
| Scenarios.PseudoDeleteAllOfFive | tests/integration/test_charm.py:132-154 | pseudo-deleting all five keys leaves the same five keys, each holding the tombstone |
| Scenarios.PseudoDeleteEvenOfFive | tests/integration/test_charm.py:157-180 | pseudo-deleting the even keys of five leaves the even keys tombstoned and `key1`, `key3` with their values |

## Left out

- The `ops` framework is not modelled. This covers event wiring (`framework.observe`), `_on_start` and `ActiveStatus`, and the `ops.main` entry point.
- The behaviour of `event.set_results` is not modelled, for example that it drops empty values. The action handlers return their results instead.
- Action parameters are modelled as a string-to-string map for set-secret. For the delete actions they are an optional key list, where None stands for a missing `keys` parameter.
- Logging is not modelled, including the error that line 142 only logs. So is the unused `VALID_LOG_LEVELS` constant. Neither changes any state.
- The real secret backend is modelled as a map from id to content with its own allocator. Juju secret revisions, labels, owners and the real id format are not modelled. `remove_all_revisions` drops the whole entry.
- The content caching inside the `ops` `Secret` object is not modelled, and neither is any aliasing between the dictionary it returns and `_secrets`. `get_content` returns what the store holds. With that aliasing the runtime can behave differently from the model in the finding below.
- The peer data is modelled with the semantics of the plain `dict[str, str]` that line 77 declares. So `del` of an absent key raises. The `ops` relation-data object instead removes such a key silently, and that is not modelled.
- The `peers is None` fallback (src/charm.py:79-80) is not modelled. The model always has one peer relation.
- Peer-relation replication across units and concurrency between events are not modelled. Events run one after another.
- SecretCache.DeleteKeys: the loop of the delete-secrets action uses the corrected `delete_secret`, so the delete-loop lemmas (`DeleteKeysRemovesSecret`, `DeleteKeysPastEmptyFails`, `DeleteEmptiesSecret`) state the corrected behaviour for a delete that empties the secret. Under the source as written that delete keeps the last key (see "## Findings").
- SecretCache.OnDeleteSecretsAction: the action is the corrected delete loop, for the same reason.
- Charm.SecretsTestCharm.OnDeleteSecretsAction: loops over the corrected `delete_secret`. The loop over the as-written one is not modelled; a single as-written delete is (`DeleteSecretAsWritten`).
- Secret handles are the ids themselves. A handle's truth value in the source is always true, so `if secret:` is modelled as "a handle was given".

## Findings

| source | as written | input that shows it | evidently intended | confidence | as-written member | corrected member |
|---|---|---|---|---|---|---|
| src/charm.py:147-148 | after the removal, the emptiness test and the write go through `cached_secrets`, which refills an empty cache from the store; so when the removed key was the only one, the key is loaded back, written again and the handle kept | a secret whose content is `{"key2": "value2"}`, then `delete_secret("key2")`; also delete-secrets with `["key0", "key1", "key2"]` in one action on three keys (tests/integration/test_charm.py:81-102), whose last step is that same call | test and write the local cache: empty after the removal means remove the secret and clear `"secret-id"` | not executed; low. It holds only when `get_content` returns the stored content (see "## Left out" on the `ops` object caching). Against it: tests/integration/test_charm.py:57 documents the separate-events sequence as working, and its last step is exactly this input. That fits `_secrets` being the same dictionary that the `ops` secret object caches | SecretCache.DeleteSecretAsWritten, CacheProperties.DeleteAsWrittenKeepsLastKey, Scenarios.DeleteThreeInSeparateActionsAsWritten | SecretCache.DeleteSecret |
