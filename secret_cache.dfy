/** The secret cache of `SecretsTestCharm` as step functions over one value that holds
    what a charm instance sees: its own cache `_secrets` and cached handle `_secret_meta`
    (both reset for every event), and the application peer data and the secret store,
    which outlive the instance. Each function returns the new state together with the
    operation's result or the exception it raises; state written before an exception
    (peer data, store) stays written, as it does in the charm. */
module SecretCache {
  import opened SecretStore

  datatype Option<T> = None | Some(value: T)

  /** The exceptions the charm's own code raises. */
  datatype Error =
    | NoSecret        // `self.secret_meta.id` while there is no handle (AttributeError on None)
    | MissingPeerKey  // `del self.app_peer_data["secret-id"]` with the key absent (KeyError)
    | MissingKeys     // an action run without its "keys" parameter (iterating over None)

  datatype Result<T> = Ok(value: T) | Err(error: Error)

  const SecretIdKey: string := "secret-id"
  const Tombstone: string := "### DELETED ###"

  datatype State = State(cache: Content, meta: Option<SecretId>, peer: map<string, string>, store: Store)

  datatype Step<T> = Step(state: State, result: Result<T>)

  /** A fresh charm instance for the next event: empty cache, no handle, same peer data and store. */
  function NewEvent(s: State): (r: State)
    ensures r.cache == map[] && r.meta == None
    ensures r.peer == s.peer && r.store == s.store
  {
    State(map[], None, s.peer, s.store)
  }

  /** `app_peer_data.get("secret-id")` read as a truth value: absent and "" are alike. */
  function PeerId(peer: map<string, string>): (r: Option<SecretId>)
    ensures r.Some? <==> SecretIdKey in peer && peer[SecretIdKey] != ""
    ensures r.Some? ==> r.value == peer[SecretIdKey]
  {
    if SecretIdKey in peer && peer[SecretIdKey] != "" then Some(peer[SecretIdKey]) else None
  }

  /** The cached handle, if any, names a live secret. */
  ghost predicate HandleLive(s: State) {
    s.meta.Some? ==> s.meta.value in s.store.secrets
  }

  /** The invariant every operation keeps within one instance: the cache is non-empty only
      while a handle is recorded, and a recorded handle names a live secret, holds exactly
      the cached content and is the id the peer data records. */
  ghost predicate Valid(s: State) {
    && AllocatorValid(s.store)
    && (s.cache != map[] ==> s.meta.Some?)
    && (s.meta.Some? ==>
          && s.meta.value in s.store.secrets
          && s.store.secrets[s.meta.value] == s.cache
          && PeerId(s.peer) == s.meta)
  }

  /** What the `secret_meta` getter returns; the getter also caches it in `_secret_meta`. */
  function Resolve(s: State): (r: Option<SecretId>)
    ensures s.meta.Some? ==> r == s.meta
    ensures s.meta.None? ==> (r.Some? <==> PeerId(s.peer).Some? && PeerId(s.peer).value in s.store.secrets)
    ensures s.meta.None? && r.Some? ==> r == PeerId(s.peer)
  {
    if s.meta.Some? then s.meta
    else match PeerId(s.peer)
      case None => None
      case Some(id) => if id in s.store.secrets then Some(id) else None
  }

  /** The content of the secret the instance can reach, and the empty map when it reaches none. */
  function StoredContent(s: State): Content
    requires HandleLive(s)
  {
    match Resolve(s)
    case None => map[]
    case Some(id) => s.store.secrets[id]
  }

  /** The `secret_meta` setter: records the handle's id in the peer data, or deletes the
      id (an exception when it is absent), and then caches the handle. */
  function SetMeta(s: State, secret: Option<SecretId>): (r: Step<()>)
    ensures r.state.cache == s.cache && r.state.store == s.store
    ensures r.state.peer - {SecretIdKey} == s.peer - {SecretIdKey}
    ensures r.result.Ok? <==> secret.Some? || SecretIdKey in s.peer
    ensures r.result.Ok? ==> r.state.meta == secret && (SecretIdKey in r.state.peer <==> secret.Some?)
    ensures secret.Some? ==> r.state.peer[SecretIdKey] == secret.value
    ensures r.result.Err? ==> r.state == s && r.result.error == MissingPeerKey
  {
    match secret
    case Some(id) => Step(s.(peer := s.peer[SecretIdKey := id], meta := secret), Ok(()))
    case None =>
      if SecretIdKey in s.peer then Step(s.(peer := s.peer - {SecretIdKey}, meta := None), Ok(()))
      else Step(s, Err(MissingPeerKey))
  }

  /** The `cached_secrets` property: loads the cache from the store only when it is empty,
      a handle can be found and the stored content is non-empty. */
  function CachedSecrets(s: State): (r: State)
    requires HandleLive(s)
    ensures HandleLive(r)
    ensures r.peer == s.peer && r.store == s.store
    ensures s.cache != map[] ==> r == s
    ensures s.cache == map[] ==> r.meta == Resolve(s)
    ensures r.cache != s.cache ==> s.cache == map[] && r.meta.Some? && r.cache == s.store.secrets[r.meta.value]
    ensures Valid(s) ==> Valid(r) && r.meta == Resolve(s) && r.cache == StoredContent(s)
  {
    if s.cache != map[] then s
    else
      var m := Resolve(s);
      if m.Some? && s.store.secrets[m.value] != map[] then s.(meta := m, cache := s.store.secrets[m.value])
      else s.(meta := m)
  }

  /** `get_secrets`: the content of the secret the peer data names, or the empty map. */
  function GetSecrets(s: State): (r: Step<Content>)
    requires Valid(s)
    ensures Valid(r.state) && r.state.peer == s.peer && r.state.store == s.store
    ensures r.result.Ok? && r.result.value == r.state.cache
    ensures r.result.value == if Resolve(s).Some? then s.store.secrets[Resolve(s).value] else map[]
  {
    var s1 := CachedSecrets(s);
    Step(s1, Ok(s1.cache))
  }

  /** `set_secret`: merge into the existing secret, or create a new one when there is
      nothing to merge into; returns the secret's id. */
  function SetSecret(s: State, newContent: Content): (r: Step<SecretId>)
    requires Valid(s)
    ensures r.result.Ok? && Valid(r.state) && r.state.meta == Some(r.result.value)
    ensures r.state.cache == StoredContent(s) + newContent
    ensures r.state.store.secrets == s.store.secrets[r.result.value := r.state.cache]
    ensures StoredContent(s) != map[] ==> Resolve(s) == Some(r.result.value) && r.state.peer == s.peer
    ensures StoredContent(s) == map[] ==>
              r.result.value !in s.store.secrets && r.state.peer == s.peer[SecretIdKey := r.result.value]
  {
    var s1 := CachedSecrets(s);
    if s1.cache != map[] then
      var s2 := s1.(cache := s1.cache + newContent);
      var id := s2.meta.value;
      Step(s2.(store := SetContent(s2.store, id, s2.cache)), Ok(id))
    else
      var s2 := s1.(cache := newContent);
      var added := AddSecret(s2.store, s2.cache);
      var recorded := SetMeta(s2.(store := added.0), Some(added.1));
      Step(recorded.state, Ok(added.1))
  }

  /** `delete_secret`, with the emptiness test at line 147 made on the cache itself:
      removes the key, then writes the rest back or, when nothing is left, removes the
      secret and forgets its handle. Fails only when there is no secret at all. */
  function DeleteSecret(s: State, key: string): (r: Step<()>)
    requires Valid(s)
    ensures r.result.Ok? ==> Valid(r.state)
    ensures r.result.Err? <==> Resolve(s).None?
    ensures r.result.Err? ==> r.result.error == NoSecret && r.state == CachedSecrets(s)
    ensures r.result.Ok? ==> r.state.cache == StoredContent(s) - {key}
    ensures r.result.Ok? && r.state.cache != map[] ==>
              && r.state.meta == Resolve(s) && r.state.peer == s.peer
              && r.state.store.secrets == s.store.secrets[Resolve(s).value := r.state.cache]
    ensures r.result.Ok? && r.state.cache == map[] ==>
              && r.state.meta == None && r.state.peer == s.peer - {SecretIdKey}
              && r.state.store.secrets == s.store.secrets - {Resolve(s).value}
  {
    var s1 := CachedSecrets(s);
    var s2 := s1.(cache := s1.cache - {key});
    var m := Resolve(s2);
    if m.None? then Step(s2.(meta := m), Err(NoSecret))
    else if s2.cache != map[] then
      Step(s2.(meta := m, store := SetContent(s2.store, m.value, s2.cache)), Ok(()))
    else
      SetMeta(s2.(meta := m, store := RemoveAllRevisions(s2.store, m.value)), None)
  }

  /** `delete_secret` as written: the test at line 147 and the write at line 148 go
      through `cached_secrets`, which re-loads the store's content into a cache that the
      removal has just emptied. */
  function DeleteSecretAsWritten(s: State, key: string): (r: Step<()>)
    requires Valid(s)
    ensures r.result.Ok? ==> Valid(r.state)
    ensures r.result.Err? <==> Resolve(s).None?
    ensures StoredContent(s) - {key} != map[] ==> r == DeleteSecret(s, key)
  {
    var s1 := CachedSecrets(s);
    var s2 := s1.(cache := s1.cache - {key});
    var m := Resolve(s2);
    if m.None? then Step(s2.(meta := m), Err(NoSecret))
    else
      var s3 := CachedSecrets(s2.(meta := m));
      if s3.cache != map[] then
        var s4 := CachedSecrets(s3);
        Step(s4.(store := SetContent(s4.store, m.value, s4.cache)), Ok(()))
      else
        SetMeta(s3.(store := RemoveAllRevisions(s3.store, m.value)), None)
  }

  /** The loop of the delete-secrets action: `delete_secret` on each key in turn,
      stopping at the first exception. */
  function DeleteKeys(s: State, keys: seq<string>): (r: Step<()>)
    requires Valid(s)
    ensures r.result.Ok? ==> Valid(r.state)
    ensures r.result.Err? ==> r.result.error == NoSecret
    ensures AllocatorValid(r.state.store)
    decreases |keys|
  {
    if keys == [] then Step(s, Ok(()))
    else
      var r0 := DeleteKeys(s, keys[..|keys| - 1]);
      if r0.result.Err? then r0 else DeleteSecret(r0.state, keys[|keys| - 1])
  }

  /** The loop of the pseudo-delete-secrets action: `set_secret({key: "### DELETED ###"})`
      on each key in turn. */
  function PseudoDeleteKeys(s: State, keys: seq<string>): (r: Step<()>)
    requires Valid(s)
    ensures r.result.Ok? && Valid(r.state)
    decreases |keys|
  {
    if keys == [] then Step(s, Ok(()))
    else
      var r0 := PseudoDeleteKeys(s, keys[..|keys| - 1]);
      Step(SetSecret(r0.state, map[keys[|keys| - 1] := Tombstone]).state, Ok(()))
  }

  /** The delete-secrets action; `keys` is None when the parameter is missing. */
  function OnDeleteSecretsAction(s: State, keys: Option<seq<string>>): (r: Step<()>)
    requires Valid(s)
    ensures keys.None? ==> r == Step(s, Err(MissingKeys))
    ensures keys.Some? ==> r == DeleteKeys(s, keys.value)
  {
    if keys.None? then Step(s, Err(MissingKeys)) else DeleteKeys(s, keys.value)
  }

  /** The pseudo-delete-secrets action; `keys` is None when the parameter is missing. */
  function OnPseudoDeleteSecretsAction(s: State, keys: Option<seq<string>>): (r: Step<()>)
    requires Valid(s)
    ensures keys.None? ==> r == Step(s, Err(MissingKeys))
    ensures keys.Some? ==> r == PseudoDeleteKeys(s, keys.value)
  {
    if keys.None? then Step(s, Err(MissingKeys)) else PseudoDeleteKeys(s, keys.value)
  }

  /** The forget-all-secrets action: drops the id from the peer data, then the setter
      deletes it a second time, which raises. The store is not touched. */
  function ForgetAll(s: State): (r: Step<()>)
    ensures r.state.store == s.store && r.state.cache == s.cache
    ensures SecretIdKey !in r.state.peer || r.state.peer == s.peer
    ensures PeerId(r.state.peer) == None
    ensures r.state.peer - {SecretIdKey} == s.peer - {SecretIdKey}
    ensures r.result.Err? <==> PeerId(s.peer).Some?
    ensures r.result.Err? ==> r.result.error == MissingPeerKey
  {
    if PeerId(s.peer).Some? then SetMeta(s.(peer := s.peer - {SecretIdKey}), None)
    else Step(s, Ok(()))
  }
}
