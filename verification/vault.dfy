/**
 The vault's record store and its operations: loading the store, adding a
 credential (insert, reject, no-op or update), reading one back, and probing
 a master key against every record.

 Randomness (`os.urandom`) and the clock (`datetime.now`) are parameters:
 `Entropy` holds the bytes the random draws return and `Clock` the text of
 the clock readings. An insert draws the salt, the username IV and the
 password IV, in that order, and reads the clock twice; an update draws only
 one IV, taken from `passwordIv`, and reads the clock once, as `first`.
 */
module Vault {
  import opened Options
  import opened Crypto

  /** One service's entry: two tokens, the base64url salt and two ISO-8601 timestamps. */
  datatype Record = Record(
    username: Token,
    password: Token,
    createdAt: string,
    updatedAt: string,
    salt: string
  )

  /** Service name to record; names are case-sensitive and unique. */
  type Store = map<string, Record>

  /** What reading the store file finds. */
  datatype StoreFile =
    | Missing                    // no file at the path
    | Unparsable                 // the file is not valid JSON
    | Document(records: Store)   // a JSON object of records

  /** The random bytes one `add_password` call may draw: the salt and the IV of each encryption. */
  datatype Entropy = Entropy(salt: Block, usernameIv: Block, passwordIv: Block)

  /** The first and second readings of the clock during one call. */
  datatype Clock = Clock(first: string, second: string)

  /** The four decisions of `add_password`; `Aborted` is the exception a corrupt stored salt raises. */
  datatype AddKind = Inserted | Rejected | Unchanged | Updated | Aborted

  /** The decision taken, the store afterwards and every store written to the file, in order. */
  datatype AddResult = AddResult(kind: AddKind, store: Store, writes: seq<Store>)

  /** A decrypted entry; the password is absent when its token does not decrypt. */
  datatype Credentials = Credentials(username: string, password: Option<string>)

  /** Python truthiness of a decryption result: neither `None` nor the empty string. */
  predicate Truthy(o: Option<string>)
  {
    o.Some? && o.value != ""
  }

  /** The key a record's tokens are read with: its salt decoded, then the key derived. */
  function RecordKey(p: Primitives, rec: Record, masterKey: string): Option<Key>
  {
    match p.saltDecode(rec.salt)
    case None => None
    case Some(salt) => Some(p.deriveKey(masterKey, salt))
  }

  /** The record `add_password` creates for an absent service. */
  function NewRecord(p: Primitives, username: string, password: string, masterKey: string,
                     rnd: Entropy, clock: Clock): Record
  {
    var key := p.deriveKey(masterKey, rnd.salt);
    Record(p.encrypt(username, key, rnd.usernameIv), p.encrypt(password, key, rnd.passwordIv),
           clock.first, clock.second, p.saltEncode(rnd.salt))
  }

  /** Loading: a missing or unparsable file is the empty store. */
  function Load(file: StoreFile): (s: Store)
    ensures file.Document? ==> s == file.records
    ensures !file.Document? ==> s == map[]
  {
    match file
    case Document(records) => records
    case _ => map[]
  }

  /** Saving overwrites the whole file with the given store. */
  function Save(store: Store): StoreFile
  {
    Document(store)
  }

  /** `add_password` applied to an already loaded store. */
  function Add(p: Primitives, store: Store, service: string, username: string, password: string,
               masterKey: string, rnd: Entropy, clock: Clock): (r: AddResult)
    // At most one save, and only on the insert and update paths; the other paths change nothing.
    ensures |r.writes| <= 1
    ensures r.writes != [] <==> r.kind == Inserted || r.kind == Updated
    ensures r.writes != [] ==> r.writes == [r.store]
    ensures r.kind == Rejected || r.kind == Unchanged || r.kind == Aborted ==> r.store == store
    // Which path is taken.
    ensures r.kind == Inserted <==> service !in store
    ensures r.kind == Aborted <==> service in store && RecordKey(p, store[service], masterKey).None?
    ensures r.kind == Rejected <==>
      && service in store && RecordKey(p, store[service], masterKey).Some?
      && p.decrypt(store[service].username, RecordKey(p, store[service], masterKey).value) != Some(username)
    ensures r.kind == Unchanged <==>
      && service in store && RecordKey(p, store[service], masterKey).Some?
      && p.decrypt(store[service].username, RecordKey(p, store[service], masterKey).value) == Some(username)
      && p.decrypt(store[service].password, RecordKey(p, store[service], masterKey).value) == Some(password)
    // Every other service is untouched.
    ensures forall s :: s in store && s != service ==> s in r.store && r.store[s] == store[s]
    ensures r.store.Keys == store.Keys + {service} || r.store == store
    // An insert adds exactly one record, sealed under a key derived from the fresh salt.
    ensures r.kind == Inserted ==>
      && r.store.Keys == store.Keys + {service}
      && var rec := r.store[service];
      && var key := p.deriveKey(masterKey, rnd.salt);
      && rec.username == p.encrypt(username, key, rnd.usernameIv)
      && rec.password == p.encrypt(password, key, rnd.passwordIv)
      && rec.salt == p.saltEncode(rnd.salt)
      && rec.createdAt == clock.first
      && rec.updatedAt == clock.second
    // An update re-encrypts only the password, under the stored salt's key, and stamps `updatedAt`.
    ensures r.kind == Updated ==>
      && r.store.Keys == store.Keys
      && var before, after := store[service], r.store[service];
      && RecordKey(p, before, masterKey).Some?
      && after.password == p.encrypt(password, RecordKey(p, before, masterKey).value, rnd.passwordIv)
      && after.updatedAt == clock.first
      && after.username == before.username
      && after.salt == before.salt
      && after.createdAt == before.createdAt
  {
    if service !in store then
      var s' := store[service := NewRecord(p, username, password, masterKey, rnd, clock)];
      AddResult(Inserted, s', [s'])
    else
      var rec := store[service];
      match RecordKey(p, rec, masterKey)
      case None => AddResult(Aborted, store, [])
      case Some(key) =>
        if p.decrypt(rec.username, key) != Some(username) then
          AddResult(Rejected, store, [])
        else if p.decrypt(rec.password, key) == Some(password) then
          AddResult(Unchanged, store, [])
        else
          var s' := store[service := rec.(password := p.encrypt(password, key, rnd.passwordIv),
                                          updatedAt := clock.first)];
          AddResult(Updated, s', [s'])
  }

  /**
   `add_password` on the file: load, decide, and save when the decision
   changed the store. The file is left exactly as it was otherwise, even an
   unparsable one.
   */
  function AddPassword(p: Primitives, file: StoreFile, service: string, username: string,
                       password: string, masterKey: string, rnd: Entropy, clock: Clock)
    : (r: (AddKind, StoreFile))
    ensures r.0 == Rejected || r.0 == Unchanged || r.0 == Aborted ==> r.1 == file
    ensures r.0 == Inserted || r.0 == Updated ==>
      r.1.Document? && service in r.1.records && Load(file).Keys <= r.1.records.Keys
    ensures r.0 == Inserted <==> service !in Load(file)
    ensures var res := Add(p, Load(file), service, username, password, masterKey, rnd, clock);
      r == (res.kind, if res.kind == Inserted || res.kind == Updated then Save(res.store) else file)
  {
    var res := Add(p, Load(file), service, username, password, masterKey, rnd, clock);
    (res.kind, if res.writes == [] then file else Save(res.writes[|res.writes| - 1]))
  }

  /** `get_password` applied to an already loaded store. */
  function Get(p: Primitives, store: Store, service: string, masterKey: string)
    : (r: Outcome<Option<Credentials>>)
    ensures r == Raised <==> service in store && RecordKey(p, store[service], masterKey).None?
    // A missing service and a username that does not decrypt look the same to the caller.
    ensures r == Returned(None) <==>
      || service !in store
      || (RecordKey(p, store[service], masterKey).Some?
          && !Truthy(p.decrypt(store[service].username, RecordKey(p, store[service], masterKey).value)))
    ensures r.Returned? && r.value.Some? ==>
      && service in store && RecordKey(p, store[service], masterKey).Some?
      && var key, c := RecordKey(p, store[service], masterKey).value, r.value.value;
      && c.username != ""
      && p.decrypt(store[service].username, key) == Some(c.username)
      && c.password == p.decrypt(store[service].password, key)
  {
    if service !in store then Returned(None)
    else
      var rec := store[service];
      match RecordKey(p, rec, masterKey)
      case None => Raised
      case Some(key) =>
        var name := p.decrypt(rec.username, key);
        if Truthy(name) then Returned(Some(Credentials(name.value, p.decrypt(rec.password, key))))
        else Returned(None)
  }

  /** A record whose username decrypts, to a non-empty text, under the given master key. */
  predicate Unlocks(p: Primitives, rec: Record, masterKey: string)
  {
    RecordKey(p, rec, masterKey).Some? && Truthy(p.decrypt(rec.username, RecordKey(p, rec, masterKey).value))
  }

  /**
   `check_master_key` applied to an already loaded store. `order` is the
   store's iteration order; it only decides whether a corrupt salt raises
   before some other record returns false.
   */
  method CheckMasterKey(p: Primitives, store: Store, masterKey: string, order: seq<string>)
    returns (r: Outcome<bool>)
    requires forall i :: 0 <= i < |order| ==> order[i] in store
    requires forall s :: s in store ==> s in order
    ensures r == Returned(true) <==> forall s :: s in store ==> Unlocks(p, store[s], masterKey)
    ensures r == Raised ==> exists s :: s in store && RecordKey(p, store[s], masterKey).None?
    ensures r == Returned(false) ==>
      exists s :: s in store && RecordKey(p, store[s], masterKey).Some? && !Unlocks(p, store[s], masterKey)
  {
    var i := 0;
    while i < |order|
      invariant 0 <= i <= |order|
      invariant forall j :: 0 <= j < i ==> Unlocks(p, store[order[j]], masterKey)
    {
      var rec := store[order[i]];
      match RecordKey(p, rec, masterKey) {
        case None =>
          return Raised;
        case Some(key) =>
          if !Truthy(p.decrypt(rec.username, key)) {
            return Returned(false);
          }
      }
      i := i + 1;
    }
    forall s | s in store
      ensures Unlocks(p, store[s], masterKey)
    {
      var j :| 0 <= j < |order| && order[j] == s;
    }
    return Returned(true);
  }
}
