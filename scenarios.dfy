/** The action sequences of the repository's integration tests, each action run by a
    fresh charm instance over the backend the previous action left. */
module Scenarios {
  import opened SecretStore
  import opened SecretCache
  import opened CacheProperties

  function ThreeKeys(): Content {
    map["key0" := "value0", "key1" := "value1", "key2" := "value2"]
  }

  function FiveKeys(): Content {
    map["key0" := "value0", "key1" := "value1", "key2" := "value2", "key3" := "value3", "key4" := "value4"]
  }

  /** forget-all-secrets, then set-secret with `content`, each in its own event. */
  function ForgetThenSet(s: State, content: Content): (r: State)
    requires AllocatorValid(s.store)
    ensures Valid(NewEvent(r)) && StoredContent(NewEvent(r)) == content
  {
    var forgotten := ForgetAll(NewEvent(s)).state;
    var created := SetSecret(NewEvent(forgotten), content).state;
    assert Resolve(NewEvent(created)) == created.meta;
    created
  }

  /** Deleting key0, key1 and key2 in one action empties the secret, and the next
      get-secrets returns nothing. */
  lemma DeleteAllThreeInOneAction(s: State)
    requires AllocatorValid(s.store)
    ensures var created := ForgetThenSet(s, ThreeKeys());
            var deleted := DeleteKeys(NewEvent(created), ["key0", "key1", "key2"]);
            && deleted.result.Ok?
            && GetSecrets(NewEvent(deleted.state)).result == Ok(map[])
  {
    var created := ForgetThenSet(s, ThreeKeys());
    var keys := ["key0", "key1", "key2"];
    assert KeySet(keys) == {"key0", "key1", "key2"};
    assert KeySet(keys[..2]) == {"key0", "key1"} by {
      assert keys[..2] == ["key0", "key1"];
    }
    assert "key2" in ThreeKeys() - KeySet(keys[..2]);
    DeleteKeysRemovesSecret(NewEvent(created), keys);
  }

  /** Deleting the even keys of five in one action leaves key1 and key3, which the next
      get-secrets returns. */
  lemma DeleteEvenOfFiveInOneAction(s: State)
    requires AllocatorValid(s.store)
    ensures var created := ForgetThenSet(s, FiveKeys());
            var deleted := DeleteKeys(NewEvent(created), ["key0", "key2", "key4"]);
            && deleted.result.Ok?
            && GetSecrets(NewEvent(deleted.state)).result == Ok(map["key1" := "value1", "key3" := "value3"])
  {
    var created := ForgetThenSet(s, FiveKeys());
    var keys := ["key0", "key2", "key4"];
    assert KeySet(keys) == {"key0", "key2", "key4"};
    var rest := map["key1" := "value1", "key3" := "value3"];
    assert "key1" in FiveKeys() - KeySet(keys);
    assert FiveKeys() - KeySet(keys) == rest;
    DeleteKeysKeepsRest(NewEvent(created), keys);
    var deleted := DeleteKeys(NewEvent(created), keys);
    assert Resolve(NewEvent(deleted.state)) == deleted.state.meta;
  }

  /** One delete action on one key that leaves content: it raises nothing and the next
      instance reaches the rest. */
  lemma DeleteOneKeepsRest(t: State, key: string)
    requires Valid(t) && StoredContent(t) - {key} != map[]
    ensures var d := DeleteKeys(t, [key]);
            && d.result.Ok?
            && Valid(NewEvent(d.state))
            && StoredContent(NewEvent(d.state)) == StoredContent(t) - {key}
  {
    assert KeySet([key]) == {key};
    DeleteKeysKeepsRest(t, [key]);
    var d := DeleteKeys(t, [key]);
    assert Resolve(NewEvent(d.state)) == d.state.meta;
  }

  /** One delete action on the only key: it raises nothing and the next get-secrets
      returns empty content. */
  lemma DeleteOnlyKeyRemoves(t: State, key: string)
    requires Valid(t) && StoredContent(t).Keys == {key}
    ensures var d := DeleteKeys(t, [key]);
            d.result.Ok? && GetSecrets(NewEvent(d.state)).result == Ok(map[])
  {
    assert KeySet([key]) == {key};
    assert KeySet([key][..0]) == {} by {
      assert [key][..0] == [];
    }
    assert key in StoredContent(t) - {};
    DeleteKeysRemovesSecret(t, [key]);
  }

  /** The first two of three separate delete actions: each raises nothing, and the
      next instance reaches only `key2`. */
  lemma FirstTwoSeparateDeletes(s: State)
    requires AllocatorValid(s.store)
    ensures var created := ForgetThenSet(s, ThreeKeys());
            var d0 := DeleteKeys(NewEvent(created), ["key0"]);
            d0.result.Ok? &&
            var d1 := DeleteKeys(NewEvent(d0.state), ["key1"]);
            && d1.result.Ok?
            && Valid(NewEvent(d1.state))
            && StoredContent(NewEvent(d1.state)) == map["key2" := "value2"]
  {
    var e0 := NewEvent(ForgetThenSet(s, ThreeKeys()));
    ThreeKeysLessTwo();
    assert "key1" in StoredContent(e0) - {"key0"};
    DeleteOneKeepsRest(e0, "key0");
    var e1 := NewEvent(DeleteKeys(e0, ["key0"]).state);
    assert StoredContent(e1) == map["key1" := "value1", "key2" := "value2"];
    assert "key2" in StoredContent(e1) - {"key1"};
    DeleteOneKeepsRest(e1, "key1");
  }

  /** Deleting key0, key1 and key2 one action at a time ends with nothing stored. */
  lemma DeleteThreeInSeparateActions(s: State)
    requires AllocatorValid(s.store)
    ensures var created := ForgetThenSet(s, ThreeKeys());
            var d0 := DeleteKeys(NewEvent(created), ["key0"]);
            d0.result.Ok? &&
            var d1 := DeleteKeys(NewEvent(d0.state), ["key1"]);
            d1.result.Ok? &&
            var d2 := DeleteKeys(NewEvent(d1.state), ["key2"]);
            && d2.result.Ok?
            && GetSecrets(NewEvent(d2.state)).result == Ok(map[])
  {
    FirstTwoSeparateDeletes(s);
    var created := ForgetThenSet(s, ThreeKeys());
    var d0 := DeleteKeys(NewEvent(created), ["key0"]);
    var d1 := DeleteKeys(NewEvent(d0.state), ["key1"]);
    var e2 := NewEvent(d1.state);
    assert StoredContent(e2).Keys == {"key2"};
    DeleteOnlyKeyRemoves(e2, "key2");
  }

  /** The same three actions with the last delete as written: `key2` is loaded back at
      line 147 and written again, so the next get-secrets still returns it. */
  lemma DeleteThreeInSeparateActionsAsWritten(s: State)
    requires AllocatorValid(s.store)
    ensures var created := ForgetThenSet(s, ThreeKeys());
            var d0 := DeleteKeys(NewEvent(created), ["key0"]);
            d0.result.Ok? &&
            var d1 := DeleteKeys(NewEvent(d0.state), ["key1"]);
            d1.result.Ok? &&
            var d2 := DeleteSecretAsWritten(NewEvent(d1.state), "key2");
            && d2.result.Ok?
            && GetSecrets(NewEvent(d2.state)).result == Ok(map["key2" := "value2"])
  {
    FirstTwoSeparateDeletes(s);
    var created := ForgetThenSet(s, ThreeKeys());
    var d0 := DeleteKeys(NewEvent(created), ["key0"]);
    var e1 := NewEvent(DeleteKeys(NewEvent(d0.state), ["key1"]).state);
    assert StoredContent(e1).Keys == {"key2"};
    DeleteAsWrittenKeepsLastKey(e1, "key2");
  }

  /** Pseudo-deleting the even keys of five in one action: those three hold the
      tombstone and exactly two keys do not. */
  lemma PseudoDeleteEvenOfFive(s: State)
    requires AllocatorValid(s.store)
    ensures var created := ForgetThenSet(s, FiveKeys());
            var marked := PseudoDeleteKeys(NewEvent(created), ["key0", "key2", "key4"]).state;
            GetSecrets(NewEvent(marked)).result == Ok(map["key0" := Tombstone, "key1" := "value1",
              "key2" := Tombstone, "key3" := "value3", "key4" := Tombstone])
  {
    var created := ForgetThenSet(s, FiveKeys());
    var keys := ["key0", "key2", "key4"];
    PseudoDeleteMarksKeys(NewEvent(created), keys);
    var marked := PseudoDeleteKeys(NewEvent(created), keys).state;
    var expected := map["key0" := Tombstone, "key1" := "value1", "key2" := Tombstone,
                        "key3" := "value3", "key4" := Tombstone];
    EvenTombstones();
    assert marked.cache == FiveKeys() + map["key0" := Tombstone, "key2" := Tombstone, "key4" := Tombstone];
    FiveWithEvenTombstones();
    assert Resolve(NewEvent(marked)) == marked.meta;
    assert GetSecrets(NewEvent(marked)).result == Ok(marked.cache);
  }

  /** Pseudo-deleting all five keys in one action: the next get-secrets returns the
      same five keys, each holding the tombstone. */
  lemma PseudoDeleteAllOfFive(s: State)
    requires AllocatorValid(s.store)
    ensures var created := ForgetThenSet(s, FiveKeys());
            var marked := PseudoDeleteKeys(NewEvent(created), ["key0", "key1", "key2", "key3", "key4"]).state;
            var got := GetSecrets(NewEvent(marked)).result.value;
            && got.Keys == FiveKeys().Keys
            && forall k | k in got :: got[k] == Tombstone
  {
    var created := ForgetThenSet(s, FiveKeys());
    var keys := ["key0", "key1", "key2", "key3", "key4"];
    assert KeySet(keys) == FiveKeys().Keys;
    PseudoDeleteMarksKeys(NewEvent(created), keys);
    PseudoDeleteKeepsKeys(NewEvent(created), keys);
    var marked := PseudoDeleteKeys(NewEvent(created), keys).state;
    assert Resolve(NewEvent(marked)) == marked.meta;
  }

  lemma EvenTombstones()
    ensures Tombstones(["key0", "key2", "key4"]) == map["key0" := Tombstone, "key2" := Tombstone, "key4" := Tombstone]
  {
    assert Tombstones(["key0"]) == map["key0" := Tombstone] by {
      assert ["key0"][..0] == [];
    }
    assert Tombstones(["key0", "key2"]) == map["key0" := Tombstone, "key2" := Tombstone] by {
      assert ["key0", "key2"][..1] == ["key0"];
    }
    assert ["key0", "key2", "key4"][..2] == ["key0", "key2"];
  }

  lemma ThreeKeysLessTwo()
    ensures ThreeKeys() - {"key0"} == map["key1" := "value1", "key2" := "value2"]
    ensures map["key1" := "value1", "key2" := "value2"] - {"key1"} == map["key2" := "value2"]
  {
  }

  lemma FiveWithEvenTombstones()
    ensures FiveKeys() + map["key0" := Tombstone, "key2" := Tombstone, "key4" := Tombstone]
         == map["key0" := Tombstone, "key1" := "value1", "key2" := Tombstone, "key3" := "value3", "key4" := Tombstone]
  {
  }
}
