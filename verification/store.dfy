/**
 * The controller's persistent store, abstracted from IndexedDB: a database is
 * a map from partition (object store) names to partitions, each a map from
 * keys to stored values. The controller's handle on it is `None` until the
 * database has been opened.
 */
module Store {
  import opened Wrappers
  import opened Values

  type Partition = map<string, Value>
  type Database = map<string, Partition>

  const ConfigPartition: string := "config"
  const CookiePartition: string := "cookies"
  /** The key under which the whole configuration is stored in its partition. */
  const ConfigKey: string := "config"

  /** The answer to an open request: the database as it exists on disk, or the request's error. */
  datatype OpenRequest = Opened(existing: Database, upgradeNeeded: bool) | Errored(reason: string)

  /**
   * How an open ended: resolved with the database, rejected with the
   * request's error, or stalled: the controller's handle is already set to
   * the database but the open never settles, because the success handler
   * threw or its configuration write was rejected.
   */
  datatype OpenOutcome<+T> = Resolved(value: T) | Rejected(reason: string) | Stalled(handle: T)

  /** How a save ended: skipped before the store was open, written, or rejected. */
  datatype SaveStatus = NotReady | Saved | WriteFailed(reason: string)

  /** Both partitions the controller uses exist. */
  predicate Ready(db: Database)
  {
    ConfigPartition in db && CookiePartition in db
  }

  /** The configuration stored under its key, if any. */
  function StoredConfig(db: Database): (r: Option<Value>)
  {
    if ConfigPartition in db && ConfigKey in db[ConfigPartition] then Some(db[ConfigPartition][ConfigKey])
    else None
  }

  /** Creates the partition `name`, empty, unless the database already has one of that name. */
  function CreateIfMissing(db: Database, name: string): (r: Database)
    ensures r.Keys == db.Keys + {name}
    ensures forall n :: n in db ==> r[n] == db[n]
    ensures name !in db ==> r[name] == map[]
  {
    if name in db then db else db[name := map[]]
  }

  /**
   * The partition checks of the upgrade handler. The success handler repeats
   * them, but there they only find the partitions present (or throw; see `Open`).
   */
  function EnsurePartitions(db: Database): (r: Database)
    ensures Ready(r)
    ensures r.Keys == db.Keys + {ConfigPartition, CookiePartition}
    ensures forall n :: n in db ==> r[n] == db[n]
    ensures forall n :: n in r && n !in db ==> r[n] == map[]
  {
    CreateIfMissing(CreateIfMissing(db, ConfigPartition), CookiePartition)
  }

  /** Creating the partitions changes nothing exactly when both already exist. */
  lemma EnsurePartitionsFixedIffReady(db: Database)
    ensures EnsurePartitions(db) == db <==> Ready(db)
  {
    if Ready(db) {
      assert forall n :: n in EnsurePartitions(db) ==> EnsurePartitions(db)[n] == db[n];
    }
  }

  /** Partition creation is idempotent. */
  lemma EnsurePartitionsIdempotent(db: Database)
    ensures EnsurePartitions(EnsurePartitions(db)) == EnsurePartitions(db)
  {
    EnsurePartitionsFixedIffReady(EnsurePartitions(db));
  }

  /**
   * `#saveConfig`: before the store is open, nothing is written; otherwise
   * the configuration is put under its key in the config partition, unless
   * the partition is missing (the transaction cannot start) or the write is
   * rejected, and then nothing changes.
   */
  function Save(store: Option<Database>, config: Config, writeError: Option<string>): (r: (Option<Database>, SaveStatus))
    ensures store.None? ==> r == (store, NotReady)
    ensures r.1.NotReady? <==> store.None?
    ensures store.Some? && ConfigPartition !in store.value ==> r.1 == WriteFailed("NotFoundError")
    ensures store.Some? && ConfigPartition in store.value && writeError.Some? ==>
      r.1 == WriteFailed(writeError.value)
    ensures r.1.Saved? <==> store.Some? && ConfigPartition in store.value && writeError.None?
    ensures !r.1.Saved? ==> r.0 == store
    ensures r.1.Saved? ==>
      && r.0.Some?
      && r.0.value.Keys == store.value.Keys
      && StoredConfig(r.0.value) == Some(Rec(config))
      && (forall n :: n in store.value && n != ConfigPartition ==> r.0.value[n] == store.value[n])
      && r.0.value[ConfigPartition].Keys == store.value[ConfigPartition].Keys + {ConfigKey}
      && (forall k :: k in store.value[ConfigPartition] && k != ConfigKey ==>
            r.0.value[ConfigPartition][k] == store.value[ConfigPartition][k])
  {
    match store
    case None => (store, NotReady)
    case Some(db) =>
      if ConfigPartition !in db then (store, WriteFailed("NotFoundError"))
      else if writeError.Some? then (store, WriteFailed(writeError.value))
      else
        var partition := db[ConfigPartition][ConfigKey := Rec(config)];
        (Some(db[ConfigPartition := partition]), Saved)
  }

  /**
   * `openIDB`. An errored request rejects with its error. On an upgrade the
   * partitions are created first. The success handler then checks the
   * partitions again: creating one there, outside an upgrade, throws
   * (IndexedDB's InvalidStateError), so a partition still missing stalls the
   * open. Otherwise the configuration is written, and the open resolves once
   * the write succeeds; a rejected write stalls it too.
   */
  function Open(config: Config, request: OpenRequest, writeError: Option<string>): (r: OpenOutcome<Database>)
    ensures r.Rejected? <==> request.Errored?
    ensures request.Errored? ==> r == Rejected(request.reason)
    ensures r.Resolved? <==>
      request.Opened? && (request.upgradeNeeded || Ready(request.existing)) && writeError.None?
    ensures r.Stalled? ==>
      && (forall n :: n in request.existing ==> n in r.handle && r.handle[n] == request.existing[n])
      && (request.upgradeNeeded ==> Ready(r.handle))
      && (!request.upgradeNeeded ==> r.handle == request.existing)
      && r.handle.Keys == request.existing.Keys +
           (if request.upgradeNeeded then {ConfigPartition, CookiePartition} else {})
      && (forall n :: n in r.handle && n !in request.existing ==> r.handle[n] == map[])
    ensures r.Resolved? ==>
      && Ready(r.value)
      && r.value.Keys == request.existing.Keys + {ConfigPartition, CookiePartition}
      && StoredConfig(r.value) == Some(Rec(config))
      && (forall n :: n in request.existing && n != ConfigPartition ==> r.value[n] == request.existing[n])
      && (forall n :: n in r.value && n !in request.existing && n != ConfigPartition ==> r.value[n] == map[])
      && (ConfigPartition in request.existing ==>
            r.value[ConfigPartition].Keys == request.existing[ConfigPartition].Keys + {ConfigKey})
      && (ConfigPartition in request.existing ==>
            forall k :: k in request.existing[ConfigPartition] && k != ConfigKey ==>
              k in r.value[ConfigPartition] && r.value[ConfigPartition][k] == request.existing[ConfigPartition][k])
      && (ConfigPartition !in request.existing ==> r.value[ConfigPartition].Keys == {ConfigKey})
  {
    match request
    case Errored(reason) => Rejected(reason)
    case Opened(existing, upgradeNeeded) =>
      var upgraded := if upgradeNeeded then EnsurePartitions(existing) else existing;
      if !Ready(upgraded) then Stalled(upgraded)
      else
        var (saved, status) := Save(Some(upgraded), config, writeError);
        if status.Saved? then Resolved(saved.value) else Stalled(upgraded)
  }

  /** Opening again the database an open produced, with the same configuration, leaves it as it was. */
  lemma ReopenChangesNothing(config: Config, request: OpenRequest, writeError: Option<string>, upgradeNeeded: bool)
    requires Open(config, request, writeError).Resolved?
    ensures Open(config, Opened(Open(config, request, writeError).value, upgradeNeeded), None)
      == Open(config, request, writeError)
  {
    var db := Open(config, request, writeError).value;
    EnsurePartitionsFixedIffReady(db);
    var upgraded := if upgradeNeeded then EnsurePartitions(db) else db;
    assert upgraded == db;
    var p := db[ConfigPartition];
    assert p[ConfigKey := Rec(config)] == p;
    assert db[ConfigPartition := p] == db;
    assert Save(Some(db), config, None).0 == Some(db);
  }
}
