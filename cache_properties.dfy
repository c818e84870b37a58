/** What the cache promises across several operations: the getter's caching, merging on
    repeated sets, the delete and pseudo-delete loops of one action, forget-all, and the
    way `delete_secret` as written differs from the corrected one. */
module CacheProperties {
  import opened SecretStore
  import opened SecretCache

  /** The keys a key list names. */
  function KeySet(keys: seq<string>): set<string> {
    set k | k in keys
  }

  /** The tombstones a pseudo-delete of `keys` writes. */
  function Tombstones(keys: seq<string>): Content {
    if keys == [] then map[] else Tombstones(keys[..|keys| - 1])[keys[|keys| - 1] := Tombstone]
  }

  lemma {:induction false} TombstonesAt(keys: seq<string>)
    ensures Tombstones(keys).Keys == KeySet(keys)
    ensures forall k | k in Tombstones(keys) :: Tombstones(keys)[k] == Tombstone
  {
    if keys != [] {
      TombstonesAt(keys[..|keys| - 1]);
      KeySetSnoc(keys);
    }
  }

  /** What the invariant gives a reader of the cache: a non-empty cache has a handle, and
      under a handle the cache is the content the instance reaches and the peer data
      names that handle. */
  lemma ValidCacheIsStored(s: State)
    requires Valid(s)
    ensures s.cache != map[] ==> s.meta.Some?
    ensures s.meta.Some? ==> StoredContent(s) == s.cache && PeerId(s.peer) == s.meta
  {
  }

  /** Once the getter has cached a handle, later calls return it whatever the peer data
      then holds; a getter that found nothing finds nothing again. */
  lemma GetterCachesHandle(s: State, laterPeer: map<string, string>)
    ensures Resolve(s.(meta := Resolve(s))) == Resolve(s)
    ensures Resolve(s).Some? ==> Resolve(s.(meta := Resolve(s), peer := laterPeer)) == Resolve(s)
  {
  }

  /** The setter followed by the getter: a recorded handle is found again, and after
      recording None a fresh instance finds no handle. */
  lemma SetterThenGetter(s: State, secret: Option<SecretId>)
    requires SetMeta(s, secret).result.Ok?
    ensures Resolve(SetMeta(s, secret).state) == secret
    ensures secret.None? ==> Resolve(NewEvent(SetMeta(s, secret).state)) == None
  {
  }

  /** A set that follows a set sees the content the first one left. */
  lemma StoredContentAfterSet(s: State, newContent: Content)
    requires Valid(s)
    ensures StoredContent(SetSecret(s, newContent).state) == SetSecret(s, newContent).state.cache
  {
    var r := SetSecret(s, newContent).state;
    assert Resolve(r) == r.meta;
  }

  /** Two sets in a row: the content is the key-wise union, the second set's values
      winning, and once there is content the second set keeps the secret's id. */
  lemma {:induction false} SetTwiceMerges(s: State, first: Content, second: Content)
    requires Valid(s)
    ensures var r1 := SetSecret(s, first);
            var r2 := SetSecret(r1.state, second);
            && r2.state.cache == StoredContent(s) + first + second
            && (StoredContent(s) + first != map[] ==> r2.result == r1.result)
  {
    StoredContentAfterSet(s, first);
  }

  /** The delete loop over `keys` is the loop over all but the last key, then one more
      delete unless the loop has raised already. */
  lemma DeleteKeysSnoc(s: State, keys: seq<string>)
    requires Valid(s) && |keys| > 0
    requires DeleteKeys(s, keys[..|keys| - 1]).result.Ok?
    ensures DeleteKeys(s, keys) == DeleteSecret(DeleteKeys(s, keys[..|keys| - 1]).state, keys[|keys| - 1])
  {
  }

  /** One delete that leaves content: the key is gone and the handle, peer data and the
      other secrets stay. */
  lemma DeleteKeepsStep(t: State, key: string)
    requires Valid(t) && StoredContent(t) - {key} != map[]
    ensures var u := DeleteSecret(t, key);
            && u.result.Ok?
            && Resolve(t).Some? && u.state.meta == Resolve(t)
            && u.state.cache == StoredContent(t) - {key} && StoredContent(u.state) == u.state.cache
            && u.state.peer == t.peer
            && u.state.store.secrets == t.store.secrets[Resolve(t).value := u.state.cache]
  {
  }

  /** Deleting keys in one action while some content survives: exactly the listed keys
      are gone, the secret keeps its id and holds the rest, the peer data is untouched. */
  lemma {:induction false} DeleteKeysKeepsRest(s: State, keys: seq<string>)
    requires Valid(s) && |keys| > 0
    requires StoredContent(s) - KeySet(keys) != map[]
    ensures var r := DeleteKeys(s, keys);
            && r.result.Ok?
            && r.state.cache == StoredContent(s) - KeySet(keys) && StoredContent(r.state) == r.state.cache
            && Resolve(s).Some? && r.state.meta == Resolve(s)
            && r.state.peer == s.peer
            && r.state.store.secrets == s.store.secrets[Resolve(s).value := r.state.cache]
  {
    var init, last := keys[..|keys| - 1], keys[|keys| - 1];
    KeySetSnoc(keys);
    var r0 := DeleteKeys(s, init);
    if init == [] {
      assert r0 == Step(s, Ok(()));
      assert StoredContent(s) - KeySet(init) == StoredContent(s);
    } else {
      DeleteKeysKeepsRest(s, init);
    }
    assert StoredContent(r0.state) - {last} == StoredContent(s) - KeySet(keys);
    DeleteKeysSnoc(s, keys);
    DeleteKeepsStep(r0.state, last);
  }

  /** Deleting keys in one action until the last one empties the secret: the secret's
      revisions are removed, its id leaves the peer data and the handle is cleared, so a
      later get-secrets returns empty content. */
  lemma {:induction false} DeleteKeysRemovesSecret(s: State, keys: seq<string>)
    requires Valid(s) && |keys| > 0
    requires StoredContent(s).Keys <= KeySet(keys)
    requires StoredContent(s) - KeySet(keys[..|keys| - 1]) != map[]
    ensures var r := DeleteKeys(s, keys);
            && r.result.Ok?
            && Resolve(s).Some?
            && r.state.cache == map[] && r.state.meta == None
            && r.state.peer == s.peer - {SecretIdKey}
            && r.state.store.secrets == s.store.secrets - {Resolve(s).value}
            && GetSecrets(NewEvent(r.state)).result == Ok(map[])
  {
    var init, last := keys[..|keys| - 1], keys[|keys| - 1];
    KeySetSnoc(keys);
    var r0 := DeleteKeys(s, init);
    if init == [] {
      assert r0 == Step(s, Ok(()));
      assert StoredContent(s) - KeySet(init) == StoredContent(s);
    } else {
      DeleteKeysKeepsRest(s, init);
    }
    LastKeyLeft(StoredContent(s), KeySet(init), last);
    DeleteKeysSnoc(s, keys);
    DeleteEmptiesSecret(r0.state, last);
    var h := Resolve(s).value;
    assert r0.state.store.secrets - {h} == s.store.secrets - {h};
  }

  /** When the listed keys cover a map, removing all but the last leaves at most that one. */
  lemma LastKeyLeft(c: Content, init: set<string>, last: string)
    requires c.Keys <= init + {last}
    ensures (c - init) - {last} == map[]
  {
    var rest := (c - init) - {last};
    assert rest.Keys == {};
  }

  /** The delete that removes the secret's last key, and a get-secrets after it. */
  lemma DeleteEmptiesSecret(s: State, key: string)
    requires Valid(s)
    requires StoredContent(s) != map[] && StoredContent(s) - {key} == map[]
    ensures var r := DeleteSecret(s, key);
            && r.result.Ok?
            && r.state.cache == map[] && r.state.meta == None
            && r.state.peer == s.peer - {SecretIdKey}
            && r.state.store.secrets == s.store.secrets - {Resolve(s).value}
            && GetSecrets(NewEvent(r.state)).result == Ok(map[])
  {
    var r := DeleteSecret(s, key);
    assert PeerId(r.state.peer) == None;
  }

  /** Once a delete in the loop has raised, the later keys are not looked at. */
  lemma {:induction false} DeleteKeysStopsAtError(s: State, keys: seq<string>, n: nat)
    requires Valid(s) && n <= |keys|
    requires DeleteKeys(s, keys[..n]).result.Err?
    ensures DeleteKeys(s, keys) == DeleteKeys(s, keys[..n])
  {
    if n < |keys| {
      var init := keys[..|keys| - 1];
      assert init[..n] == keys[..n];
      DeleteKeysStopsAtError(s, init, n);
    } else {
      assert keys[..n] == keys;
    }
  }

  /** With no secret to reach, a delete-secrets action with any key fails on the handle. */
  lemma {:induction false} DeleteKeysWithoutSecretFails(s: State, keys: seq<string>)
    requires Valid(s) && Resolve(s).None? && |keys| > 0
    ensures DeleteKeys(s, keys).result == Err(NoSecret)
  {
    var init := keys[..|keys| - 1];
    if init != [] {
      DeleteKeysWithoutSecretFails(s, init);
    }
  }

  /** Keys listed after the deletion that emptied the secret make the action fail: the
      handle is gone by then. */
  lemma {:induction false} DeleteKeysPastEmptyFails(s: State, keys: seq<string>, extra: seq<string>)
    requires Valid(s) && |keys| > 0 && |extra| > 0
    requires StoredContent(s).Keys <= KeySet(keys)
    requires StoredContent(s) - KeySet(keys[..|keys| - 1]) != map[]
    ensures DeleteKeys(s, keys + extra).result == Err(NoSecret)
  {
    var all := keys + extra;
    assert all[..|all| - 1] == keys + extra[..|extra| - 1];
    if |extra| == 1 {
      assert all[..|all| - 1] == keys;
      DeleteKeysRemovesSecret(s, keys);
      var r0 := DeleteKeys(s, keys);
      assert Resolve(r0.state) == None;
    } else {
      DeleteKeysPastEmptyFails(s, keys, extra[..|extra| - 1]);
    }
  }

  /** The pseudo-delete loop over `keys` is the loop over all but the last key, then one
      more set-secret. */
  lemma PseudoDeleteSnoc(s: State, keys: seq<string>)
    requires Valid(s) && |keys| > 0
    ensures PseudoDeleteKeys(s, keys).state
         == SetSecret(PseudoDeleteKeys(s, keys[..|keys| - 1]).state, map[keys[|keys| - 1] := Tombstone]).state
  {
  }

  /** One pseudo-delete: the tombstone is merged into what the instance reaches. */
  lemma PseudoDeleteStep(t: State, key: string)
    requires Valid(t)
    ensures var u := SetSecret(t, map[key := Tombstone]).state;
            && u.meta.Some? && StoredContent(u) == u.cache
            && u.cache == StoredContent(t) + map[key := Tombstone]
  {
    StoredContentAfterSet(t, map[key := Tombstone]);
  }

  /** Pseudo-deleting keys in one action: the content becomes the old content overridden
      by a tombstone for each listed key, held by the secret the instance reaches. */
  lemma {:induction false} PseudoDeleteMarksKeys(s: State, keys: seq<string>)
    requires Valid(s) && |keys| > 0
    ensures var r := PseudoDeleteKeys(s, keys).state;
            && r.meta.Some? && StoredContent(r) == r.cache
            && r.cache == StoredContent(s) + Tombstones(keys)
  {
    var init, last := keys[..|keys| - 1], keys[|keys| - 1];
    var r0 := PseudoDeleteKeys(s, init).state;
    if init == [] {
      assert r0 == s;
      assert StoredContent(s) + Tombstones(init) == StoredContent(s);
    } else {
      PseudoDeleteMarksKeys(s, init);
    }
    assert StoredContent(r0) == StoredContent(s) + Tombstones(init);
    PseudoDeleteSnoc(s, keys);
    PseudoDeleteStep(r0, last);
    TombstonesSnoc(keys);
    MergeAssociative(StoredContent(s), Tombstones(init), map[last := Tombstone]);
  }

  lemma MergeAssociative(a: Content, b: Content, c: Content)
    ensures (a + b) + c == a + (b + c)
  {
  }

  /** The tombstones of `keys` are those of all but the last key plus the last one's. */
  lemma TombstonesSnoc(keys: seq<string>)
    requires |keys| > 0
    ensures Tombstones(keys) == Tombstones(keys[..|keys| - 1]) + map[keys[|keys| - 1] := Tombstone]
  {
  }

  /** The keys of a list are those of all but its last element plus the last one. */
  lemma KeySetSnoc(keys: seq<string>)
    requires |keys| > 0
    ensures KeySet(keys) == KeySet(keys[..|keys| - 1]) + {keys[|keys| - 1]}
  {
    assert keys == keys[..|keys| - 1] + [keys[|keys| - 1]];
  }

  /** Pseudo-delete never removes a key: every listed key maps to the tombstone and every
      other key keeps its value. */
  lemma PseudoDeleteKeepsKeys(s: State, keys: seq<string>)
    requires Valid(s) && |keys| > 0
    ensures var r := PseudoDeleteKeys(s, keys).state;
            && StoredContent(s).Keys + KeySet(keys) == r.cache.Keys
            && (forall k | k in keys :: r.cache[k] == Tombstone)
            && (forall k | k in StoredContent(s) && k !in keys :: r.cache[k] == StoredContent(s)[k])
  {
    PseudoDeleteMarksKeys(s, keys);
    TombstonesAt(keys);
  }

  /** Forget-all, run as every action is by a fresh instance, keeps the invariant. */
  lemma ForgetAllKeepsValid(s: State)
    requires AllocatorValid(s.store)
    ensures Valid(ForgetAll(NewEvent(s)).state)
  {
  }

  /** Forget-all leaves the store as it was, yet the next instance reaches no secret, so
      get-secrets returns empty content. */
  lemma ForgetAllThenGetIsEmpty(s: State)
    requires AllocatorValid(s.store)
    ensures var r := ForgetAll(NewEvent(s));
            && r.state.store == s.store
            && GetSecrets(NewEvent(r.state)).result == Ok(map[])
  {
  }

  /** The finding in `delete_secret`: the version as written differs from the corrected
      one exactly when the key removed is the secret's only key. Then it re-loads that
      key, writes it back and keeps the handle, so nothing is deleted at all. */
  lemma DeleteAsWrittenKeepsLastKey(s: State, key: string)
    requires Valid(s)
    ensures DeleteSecretAsWritten(s, key) != DeleteSecret(s, key) <==> StoredContent(s).Keys == {key}
    ensures StoredContent(s).Keys == {key} ==>
              var r := DeleteSecretAsWritten(s, key);
              && r.result.Ok?
              && r.state.store == s.store && r.state.peer == s.peer
              && r.state.cache == StoredContent(s) && key in r.state.cache
  {
    if StoredContent(s).Keys == {key} {
      var h := Resolve(s).value;
      assert StoredContent(s) - {key} == map[];
      assert h in s.store.secrets && h !in DeleteSecret(s, key).state.store.secrets;
    } else if StoredContent(s) - {key} == map[] {
      EmptiedByRemoval(StoredContent(s), key);
    }
  }

  /** Removing one key empties a map only if that key was its only key, or it was empty. */
  lemma EmptiedByRemoval(c: Content, key: string)
    requires c - {key} == map[]
    ensures c == map[] || c.Keys == {key}
  {
    var rest := c - {key};
    assert rest.Keys == c.Keys - {key};
    assert rest.Keys == {} by {
      assert rest == map[];
    }
    assert c.Keys <= {key};
    if key in c {
      assert c.Keys == {key};
    } else {
      assert c.Keys == {};
    }
  }
}
