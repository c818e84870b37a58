/** `SecretsTestCharm` as the framework runs it: a new instance for every event, with its
    own cache and handle, sharing one backend (peer data and secret store) with every
    other instance. Each method is proved to do what the matching step function of
    SecretCache does to the instance and its backend taken together. `delete_secret`
    comes twice: `DeleteSecretAsWritten` as the source writes it and `DeleteSecret`
    corrected at lines 147-148; the delete-secrets action loops over the corrected one. */
module Charm {
  import opened SecretStore
  import opened SecretCache
  import CacheProperties

  /** What an instance reaches through the framework and what outlives it: the
      application peer data and the secret store. */
  class Backend {
    var peerData: map<string, string>
    var store: Store

    constructor (peerData: map<string, string>, store: Store)
      ensures this.peerData == peerData && this.store == store
    {
      this.peerData := peerData;
      this.store := store;
    }

    /** `app_peer_data.get(key)` */
    method PeerGet(key: string) returns (value: Option<string>)
      ensures value.Some? <==> key in peerData
      ensures value.Some? ==> value.value == peerData[key]
    {
      value := if key in peerData then Some(peerData[key]) else None;
    }

    /** `app_peer_data[key] = value` */
    method PeerSet(key: string, value: string)
      modifies this
      ensures peerData == old(peerData)[key := value] && store == old(store)
    {
      peerData := peerData[key := value];
    }

    /** `del app_peer_data[key]`, a KeyError when the key is absent. */
    method PeerDelete(key: string) returns (r: Result<()>)
      modifies this
      ensures store == old(store)
      ensures key in old(peerData) ==> r == Ok(()) && peerData == old(peerData) - {key}
      ensures key !in old(peerData) ==> r == Err(MissingPeerKey) && peerData == old(peerData)
    {
      if key in peerData {
        peerData := peerData - {key};
        r := Ok(());
      } else {
        r := Err(MissingPeerKey);
      }
    }

    /** `model.get_secret(id=id)`; None stands for SecretNotFoundError. */
    method GetSecret(id: SecretId) returns (found: Option<SecretId>)
      ensures found.Some? <==> id in store.secrets
      ensures found.Some? ==> found.value == id
    {
      found := if id in store.secrets then Some(id) else None;
    }

    /** `secret.get_content()` */
    method GetContent(id: SecretId) returns (content: Content)
      requires id in store.secrets
      ensures content == store.secrets[id]
    {
      content := store.secrets[id];
    }

    /** `secret.set_content(content)` */
    method SetContent(id: SecretId, content: Content)
      requires id in store.secrets
      modifies this
      ensures store == SecretStore.SetContent(old(store), id, content) && peerData == old(peerData)
    {
      store := SecretStore.SetContent(store, id, content);
    }

    /** `app.add_secret(content)` */
    method AddSecret(content: Content) returns (id: SecretId)
      requires AllocatorValid(store)
      modifies this
      ensures (store, id) == SecretStore.AddSecret(old(store), content) && peerData == old(peerData)
    {
      var added := SecretStore.AddSecret(store, content);
      store, id := added.0, added.1;
    }

    /** `secret.remove_all_revisions()` */
    method RemoveAllRevisions(id: SecretId)
      modifies this
      ensures store == SecretStore.RemoveAllRevisions(old(store), id) && peerData == old(peerData)
    {
      store := SecretStore.RemoveAllRevisions(store, id);
    }
  }

  class SecretsTestCharm {
    var secrets: Content
    var secretMeta: Option<SecretId>
    const backend: Backend

    /** The instance and its backend as one value. */
    function Snapshot(): State
      reads this, backend
    {
      State(secrets, secretMeta, backend.peerData, backend.store)
    }

    ghost predicate Valid()
      reads this, backend
    {
      SecretCache.Valid(Snapshot())
    }

    /** The instance the framework creates for an event: an empty cache and no handle
        over the backend as the previous events left it. */
    constructor (backend: Backend)
      ensures this.backend == backend && secrets == map[] && secretMeta == None
      ensures AllocatorValid(backend.store) ==> Valid()
    {
      this.backend := backend;
      secrets := map[];
      secretMeta := None;
    }

    /** The `secret_meta` getter. */
    method SecretMeta() returns (secret: Option<SecretId>)
      modifies this
      ensures secret == Resolve(old(Snapshot()))
      ensures Snapshot() == old(Snapshot()).(meta := secret)
    {
      if secretMeta.None? {
        var secretId := backend.PeerGet(SecretIdKey);
        if secretId.None? || secretId.value == "" {
          return None;
        }
        var found := backend.GetSecret(secretId.value);
        if found.None? {
          return None;
        }
        secretMeta := found;
      }
      secret := secretMeta;
    }

    /** The `secret_meta` setter. */
    method SetSecretMeta(secret: Option<SecretId>) returns (r: Result<()>)
      modifies this, backend
      ensures Step(Snapshot(), r) == SetMeta(old(Snapshot()), secret)
    {
      if secret.Some? {
        backend.PeerSet(SecretIdKey, secret.value);
      } else {
        r := backend.PeerDelete(SecretIdKey);
        if r.Err? {
          return;
        }
      }
      secretMeta := secret;
      r := Ok(());
    }

    /** The `cached_secrets` property. */
    method CachedSecrets() returns (content: Content)
      requires HandleLive(Snapshot())
      modifies this
      ensures Snapshot() == SecretCache.CachedSecrets(old(Snapshot()))
      ensures content == secrets
    {
      if secrets == map[] {
        var secret := SecretMeta();
        if secret.Some? {
          secret := SecretMeta();
          var stored := backend.GetContent(secret.value);
          if stored != map[] {
            secrets := stored;
          }
        }
      }
      content := secrets;
    }

    method AppendCachedSecret(newContent: Content)
      modifies this
      ensures secrets == old(secrets) + newContent && secretMeta == old(secretMeta)
    {
      secrets := secrets + newContent;
    }

    method CreateCachedSecret(content: Content)
      modifies this
      ensures secrets == content && secretMeta == old(secretMeta)
    {
      secrets := content;
    }

    method RemoveCachedSecret(key: string)
      modifies this
      ensures secrets == old(secrets) - {key} && secretMeta == old(secretMeta)
    {
      if key in secrets {
        secrets := secrets - {key};
      }
    }

    method GetSecrets() returns (content: Content)
      requires Valid()
      modifies this
      ensures Step(Snapshot(), Ok(content)) == SecretCache.GetSecrets(old(Snapshot()))
      ensures Valid()
    {
      content := CachedSecrets();
    }

    method SetSecret(newContent: Content) returns (id: SecretId)
      requires Valid()
      modifies this, backend
      ensures Step(Snapshot(), Ok(id)) == SecretCache.SetSecret(old(Snapshot()), newContent)
      ensures Valid()
    {
      var current := CachedSecrets();
      if current != map[] {
        AppendCachedSecret(newContent);
        var secret := SecretMeta();
        var content := CachedSecrets();
        backend.SetContent(secret.value, content);
      } else {
        CreateCachedSecret(newContent);
        var content := CachedSecrets();
        var created := backend.AddSecret(content);
        var _ := SetSecretMeta(Some(created));
      }
      var secret := SecretMeta();
      id := secret.value;
    }

    /** `delete_secret`, with the emptiness test at line 147 made on the cache itself. */
    method DeleteSecret(key: string) returns (r: Result<()>)
      requires Valid()
      modifies this, backend
      ensures Step(Snapshot(), r) == SecretCache.DeleteSecret(old(Snapshot()), key)
      ensures r.Ok? ==> Valid()
    {
      // With nothing cached the source only logs an error here and carries on.
      var _ := CachedSecrets();
      RemoveCachedSecret(key);
      var secret := SecretMeta();
      if secret.None? {
        return Err(NoSecret);
      }
      if secrets != map[] {
        backend.SetContent(secret.value, secrets);
        r := Ok(());
      } else {
        backend.RemoveAllRevisions(secret.value);
        r := SetSecretMeta(None);
      }
    }

    /** `delete_secret` as written: the test at line 147 and the write at line 148 read
        the cache through `cached_secrets`, which re-loads an emptied cache. */
    method DeleteSecretAsWritten(key: string) returns (r: Result<()>)
      requires Valid()
      modifies this, backend
      ensures Step(Snapshot(), r) == SecretCache.DeleteSecretAsWritten(old(Snapshot()), key)
      ensures r.Ok? ==> Valid()
    {
      var _ := CachedSecrets();
      RemoveCachedSecret(key);
      var secret := SecretMeta();
      if secret.None? {
        return Err(NoSecret);
      }
      var current := CachedSecrets();
      if current != map[] {
        var content := CachedSecrets();
        backend.SetContent(secret.value, content);
        r := Ok(());
      } else {
        backend.RemoveAllRevisions(secret.value);
        r := SetSecretMeta(None);
      }
    }

    method OnSetSecretAction(params: Content) returns (secretId: SecretId)
      requires Valid()
      modifies this, backend
      ensures Step(Snapshot(), Ok(secretId)) == SecretCache.SetSecret(old(Snapshot()), params)
    {
      secretId := SetSecret(params);
    }

    method OnGetSecretsAction() returns (content: Content)
      requires Valid()
      modifies this
      ensures Step(Snapshot(), Ok(content)) == SecretCache.GetSecrets(old(Snapshot()))
    {
      content := GetSecrets();
    }

    method OnDeleteSecretsAction(keys: Option<seq<string>>) returns (r: Result<()>)
      requires Valid()
      modifies this, backend
      ensures Step(Snapshot(), r) == SecretCache.OnDeleteSecretsAction(old(Snapshot()), keys)
    {
      if keys.None? {
        return Err(MissingKeys);
      }
      var ks := keys.value;
      var i := 0;
      while i < |ks|
        invariant 0 <= i <= |ks|
        invariant Valid()
        invariant DeleteKeys(old(Snapshot()), ks[..i]) == Step(Snapshot(), Ok(()))
      {
        assert ks[..i + 1][..i] == ks[..i];
        r := DeleteSecret(ks[i]);
        if r.Err? {
          CacheProperties.DeleteKeysStopsAtError(old(Snapshot()), ks, i + 1);
          return;
        }
        i := i + 1;
      }
      assert ks[..|ks|] == ks;
      r := Ok(());
    }

    method OnPseudoDeleteSecretsAction(keys: Option<seq<string>>) returns (r: Result<()>)
      requires Valid()
      modifies this, backend
      ensures Step(Snapshot(), r) == SecretCache.OnPseudoDeleteSecretsAction(old(Snapshot()), keys)
    {
      if keys.None? {
        return Err(MissingKeys);
      }
      var ks := keys.value;
      var i := 0;
      while i < |ks|
        invariant 0 <= i <= |ks|
        invariant Valid()
        invariant PseudoDeleteKeys(old(Snapshot()), ks[..i]) == Step(Snapshot(), Ok(()))
      {
        assert ks[..i + 1][..i] == ks[..i];
        var _ := SetSecret(map[ks[i] := Tombstone]);
        i := i + 1;
      }
      assert ks[..|ks|] == ks;
      r := Ok(());
    }

    method OnForgetAllSecretsAction() returns (r: Result<()>)
      modifies this, backend
      ensures Step(Snapshot(), r) == ForgetAll(old(Snapshot()))
    {
      var secretId := backend.PeerGet(SecretIdKey);
      if secretId.Some? && secretId.value != "" {
        var _ := backend.PeerDelete(SecretIdKey);
        r := SetSecretMeta(None);
      } else {
        r := Ok(());
      }
    }
  }
}
