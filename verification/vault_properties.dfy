/**
 Properties that relate several vault operations, under the assumption that
 the cryptographic libraries round-trip (`Sound`).
 */
module VaultProperties {
  import opened Options
  import opened Crypto
  import opened Vault

  /** Every record's salt decodes and both of its tokens decrypt under the master key. */
  ghost predicate Governed(p: Primitives, store: Store, masterKey: string)
  {
    forall s :: s in store ==> Opens(p, store[s], masterKey)
  }

  ghost predicate Opens(p: Primitives, rec: Record, masterKey: string)
  {
    && RecordKey(p, rec, masterKey).Some?
    && p.decrypt(rec.username, RecordKey(p, rec, masterKey).value).Some?
    && p.decrypt(rec.password, RecordKey(p, rec, masterKey).value).Some?
  }

  /** A freshly inserted record opens, under the salt it stores, to the supplied credentials. */
  lemma InsertedRecordOpens(p: Primitives, store: Store, service: string, username: string,
                            password: string, masterKey: string, rnd: Entropy, clock: Clock)
    requires Sound(p)
    requires service !in store
    ensures var rec := Add(p, store, service, username, password, masterKey, rnd, clock).store[service];
      && RecordKey(p, rec, masterKey) == Some(p.deriveKey(masterKey, rnd.salt))
      && p.decrypt(rec.username, p.deriveKey(masterKey, rnd.salt)) == Some(username)
      && p.decrypt(rec.password, p.deriveKey(masterKey, rnd.salt)) == Some(password)
  {
  }

  /**
   After an add that inserted, updated or found the entry up to date, reading
   the service back with the same master key gives the supplied credentials.
   */
  lemma AddThenGet(p: Primitives, store: Store, service: string, username: string,
                   password: string, masterKey: string, rnd: Entropy, clock: Clock)
    requires Sound(p)
    requires username != ""
    requires Add(p, store, service, username, password, masterKey, rnd, clock).kind in {Inserted, Updated, Unchanged}
    ensures Get(p, Add(p, store, service, username, password, masterKey, rnd, clock).store, service, masterKey)
            == Returned(Some(Credentials(username, Some(password))))
  {
    var r := Add(p, store, service, username, password, masterKey, rnd, clock);
    if r.kind == Updated {
      var key := RecordKey(p, store[service], masterKey).value;
      assert RecordKey(p, r.store[service], masterKey) == Some(key);
    }
  }

  /** Adding the same credentials again, with any fresh randomness and clock, is a no-op. */
  lemma ReAddIsNoOp(p: Primitives, store: Store, service: string, username: string,
                    password: string, masterKey: string, rnd: Entropy, clock: Clock,
                    rnd': Entropy, clock': Clock)
    requires Sound(p)
    requires Add(p, store, service, username, password, masterKey, rnd, clock).kind in {Inserted, Updated, Unchanged}
    ensures var s' := Add(p, store, service, username, password, masterKey, rnd, clock).store;
      Add(p, s', service, username, password, masterKey, rnd', clock') == AddResult(Unchanged, s', [])
  {
    var r := Add(p, store, service, username, password, masterKey, rnd, clock);
    if r.kind == Updated {
      assert RecordKey(p, r.store[service], masterKey) == RecordKey(p, store[service], masterKey);
    }
  }

  /** A store whose records were all sealed under one master key stays so after an add with that key. */
  lemma AddPreservesGoverned(p: Primitives, store: Store, service: string, username: string,
                             password: string, masterKey: string, rnd: Entropy, clock: Clock)
    requires Sound(p)
    requires Governed(p, store, masterKey)
    ensures Governed(p, Add(p, store, service, username, password, masterKey, rnd, clock).store, masterKey)
  {
    var r := Add(p, store, service, username, password, masterKey, rnd, clock);
    forall s | s in r.store
      ensures Opens(p, r.store[s], masterKey)
    {
      if s == service && r.kind == Updated {
        assert RecordKey(p, r.store[s], masterKey) == RecordKey(p, store[s], masterKey);
      }
    }
  }

  /**
   If every record unlocks under the master key, so that the probe answers
   true, it still does after an add with that key and a non-empty username.
   */
  lemma AddPreservesUnlocks(p: Primitives, store: Store, service: string, username: string,
                            password: string, masterKey: string, rnd: Entropy, clock: Clock)
    requires Sound(p)
    requires username != ""
    requires forall s :: s in store ==> Unlocks(p, store[s], masterKey)
    ensures var s' := Add(p, store, service, username, password, masterKey, rnd, clock).store;
      forall s :: s in s' ==> Unlocks(p, s'[s], masterKey)
  {
    var r := Add(p, store, service, username, password, masterKey, rnd, clock);
    forall s | s in r.store
      ensures Unlocks(p, r.store[s], masterKey)
    {
      if s == service && r.kind == Updated {
        assert RecordKey(p, r.store[s], masterKey) == RecordKey(p, store[s], masterKey);
      }
    }
  }

  /** An add with an empty username stores a record that the probe and the lookup both refuse. */
  lemma EmptyUsernameNeverUnlocks(p: Primitives, store: Store, service: string, password: string,
                                  masterKey: string, rnd: Entropy, clock: Clock)
    requires Sound(p)
    requires service !in store
    ensures var s' := Add(p, store, service, "", password, masterKey, rnd, clock).store;
      && !Unlocks(p, s'[service], masterKey)
      && Get(p, s', service, masterKey) == Returned(None)
  {
  }
}
